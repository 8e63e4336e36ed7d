/** `str_cli` of nonblock/strclinonb.c on its own buffers and pointers, proved to do what
    `NonblockSpec` describes, round by round. */
module NonblockStrCli {
  import opened NonblockSpec
  import opened NonblockRounds

  class StrCli {
    const to: array<char>
    const fr: array<char>
    var toiptr: nat
    var tooptr: nat
    var friptr: nat
    var froptr: nat
    var stdineof: bool
    var status: Status
    ghost var fins: nat
    ghost var stdinRead: string
    ghost var sockWritten: string
    ghost var sockRead: string
    ghost var stdoutWritten: string

    ghost predicate Valid()
      reads this
    {
      && to.Length == MAXLINE && fr.Length == MAXLINE && to != fr
      && tooptr <= toiptr <= MAXLINE && froptr <= friptr <= MAXLINE
    }

    ghost function State(): (s: Client)
      requires Valid()
      reads this, to, fr
      ensures Wf(s)
    {
      Client(Buffer(to[..], toiptr, tooptr), Buffer(fr[..], friptr, froptr), stdineof, status, fins,
             stdinRead, sockWritten, sockRead, stdoutWritten)
    }

    constructor ()
      ensures Valid() && Initial(State()) && fresh(to) && fresh(fr)
    {
      to, fr := new char[MAXLINE], new char[MAXLINE];
      toiptr, tooptr, friptr, froptr := 0, 0, 0, 0;
      stdineof, status := false, Running;
      fins, stdinRead, sockWritten, sockRead, stdoutWritten := 0, "", "", "", "";
    }

    /** The bytes that `read` stores at `buf + at`. */
    static method Store(buf: array<char>, at: nat, bytes: string)
      requires at + |bytes| <= buf.Length
      modifies buf
      ensures buf[..] == old(buf[..at]) + bytes + old(buf[at + |bytes|..])
    {
      forall k | 0 <= k < |bytes| { buf[at + k] := bytes[k]; }
    }

    method OnStdin(r: ReadResult)
      requires Valid() && toiptr < MAXLINE
      modifies this, to
      ensures Valid() && State() == ReadStdin(old(State()), r)
    {
      match r
      case WouldBlock =>
      case ReadError =>
        status := Exited;
      case Eof =>
        stdineof := true;
        if tooptr == toiptr {
          fins := fins + 1;   // Shutdown(sockfd, SHUT_WR)
        }
      case Data(_, _) =>
        var bytes := Arriving(r, MAXLINE - toiptr);
        Store(to, toiptr, bytes);
        toiptr := toiptr + |bytes|;
        stdinRead := stdinRead + bytes;
    }

    method OnSockRead(r: ReadResult)
      requires Valid() && friptr < MAXLINE
      modifies this, fr
      ensures Valid() && State() == ReadSock(old(State()), r)
    {
      match r
      case WouldBlock =>
      case ReadError =>
        status := Exited;
      case Eof =>
        status := if stdineof then Returned else Exited;
      case Data(_, _) =>
        var bytes := Arriving(r, MAXLINE - friptr);
        Store(fr, friptr, bytes);
        friptr := friptr + |bytes|;
        sockRead := sockRead + bytes;
    }

    method OnStdout(r: WriteResult)
      requires Valid() && friptr > froptr
      modifies this
      ensures Valid() && State() == WriteStdout(old(State()), r)
    {
      match r
      case WriteBlocked =>
      case WriteError =>
        status := Exited;
      case Wrote(_) =>
        var nwritten := Taken(r, friptr - froptr);
        stdoutWritten := stdoutWritten + fr[froptr..friptr][..nwritten];
        froptr := froptr + nwritten;
        if froptr == friptr {
          froptr, friptr := 0, 0;
        }
    }

    method OnSockWrite(r: WriteResult)
      requires Valid() && toiptr > tooptr
      modifies this
      ensures Valid() && State() == WriteSock(old(State()), r)
    {
      match r
      case WriteBlocked =>
      case WriteError =>
        status := Exited;
      case Wrote(_) =>
        var nwritten := Taken(r, toiptr - tooptr);
        sockWritten := sockWritten + to[tooptr..toiptr][..nwritten];
        tooptr := tooptr + nwritten;
        if tooptr == toiptr {
          toiptr, tooptr := 0, 0;
          if stdineof {
            fins := fins + 1;   // Shutdown(sockfd, SHUT_WR)
          }
        }
    }

    /** Lines 42-62; `got` says that bytes arrived, so that the write is tried below. */
    method TryStdin(ready: bool, e: Round) returns (got: bool)
      requires Valid() && ready == (e.stdinReady && WantStdin(State()))
      modifies this, to
      ensures Valid() && State() == Part1(old(State()), e)
      ensures got == (stdinRead != old(stdinRead)) && unchanged(`friptr) && fr[..] == old(fr[..])
    {
      got := false;
      if ready {
        OnStdin(e.onStdin);
        got := e.onStdin.Data?;
      }
    }

    /** Lines 64-86. */
    method TrySockRead(ready: bool, r: ReadResult) returns (got: bool)
      requires Valid() && status == Running && (ready ==> friptr < MAXLINE)
      modifies this, fr
      ensures Valid() && State() == Part2(old(State()), ready, r)
      ensures got == (sockRead != old(sockRead))
    {
      got := false;
      if ready {
        OnSockRead(r);
        got := r.Data?;
      }
    }

    /** Lines 89-103. */
    method TryStdout(ready: bool, r: WriteResult)
      requires Valid() && status == Running
      modifies this
      ensures Valid() && State() == Part3(old(State()), ready, r)
    {
      if ready && friptr > froptr {
        OnStdout(r);
      }
    }

    /** Lines 105-122. */
    method TrySockWrite(ready: bool, r: WriteResult)
      requires Valid()
      modifies this
      ensures Valid() && State() == Part4(old(State()), ready, r)
    {
      if status == Running && ready && toiptr > tooptr {
        OnSockWrite(r);
      }
    }

    /** Lines 28-122: one round, with the environment `e`. */
    method LoopBody(e: Round)
      requires Valid() && status == Running
      modifies this, to, fr
      ensures Valid() && State() == Body(old(State()), e)
    {
      var rStdin := !stdineof && toiptr < MAXLINE && e.stdinReady;
      var rSock := friptr < MAXLINE && e.sockReadable;
      var wSock := tooptr != toiptr && e.sockWritable;
      var wStdout := froptr != friptr && e.stdoutWritable;
      hide Part1, Part2, Part3, Part4, Shaped;
      var fromStdin := TryStdin(rStdin, e);
      if status != Running {
        ExitEndsRound(State(), e);
        return;
      }
      var fromSock := TrySockRead(rSock, e.onSockRead);
      if status != Running {
        ExitEndsRound(State(), e);
        return;
      }
      TryStdout(wStdout || fromSock, e.onStdout);
      TrySockWrite(wSock || fromStdin, e.onSockWrite);
    }
  }

  /** Nothing happens in a round after the program has ended. */
  lemma ExitEndsRound(s: Client, e: Round)
    requires Wf(s) && s.status != Running
    ensures forall ready :: Part2(s, ready, e.onSockRead) == s
    ensures forall ready :: Part3(s, ready, e.onStdout) == s
    ensures forall ready :: Part4(s, ready, e.onSockWrite) == s
  {
  }

  /** `str_cli` in any environment, up to `|rounds|` rounds: what it copied, its FIN, and how
      it ended. */
  method StrCliIn(rounds: seq<Round>) returns (c: StrCli, ghost start: Client)
    ensures c.Valid() && Initial(start) && c.State() == Run(start, rounds)
    ensures c.stdinRead == c.sockWritten + c.to[c.tooptr..c.toiptr]
    ensures c.sockRead == c.stdoutWritten + c.fr[c.froptr..c.friptr]
    ensures c.fins == if c.stdineof && c.sockWritten == c.stdinRead then 1 else 0
    ensures c.status == Returned <==> exists k :: 0 <= k < |rounds| && EndsWell(start, rounds, k)
    ensures c.status == Exited <==> exists k :: 0 <= k < |rounds| && EndsBadly(start, rounds, k)
  {
    hide EndsWell, EndsBadly, Body, Inv;
    c := new StrCli();
    start := c.State();
    var i := 0;
    while i < |rounds| && c.status == Running
      invariant c.Valid() && fresh(c) && fresh(c.to) && fresh(c.fr)
      invariant i <= |rounds| && c.State() == Run(start, rounds[..i])
    {
      assert rounds[..i + 1][..i] == rounds[..i];
      c.LoopBody(rounds[i]);
      i := i + 1;
    }
    Stopped(start, rounds, i);
    EndsExactly(start, rounds);
    CopiesFaithfully(start, rounds);
  }

  /** Rounds after the end change nothing. */
  lemma {:induction false} Stopped(s: Client, rounds: seq<Round>, i: nat)
    requires Wf(s) && i <= |rounds| && (i < |rounds| ==> Run(s, rounds[..i]).status != Running)
    ensures Run(s, rounds) == Run(s, rounds[..i])
    decreases |rounds|
  {
    hide Part1, Part2, Part3, Part4;
    if i < |rounds| {
      var n := |rounds| - 1;
      assert rounds[..n][..i] == rounds[..i];
      Stopped(s, rounds[..n], i);
    } else {
      assert rounds[..i] == rounds;
    }
  }
}

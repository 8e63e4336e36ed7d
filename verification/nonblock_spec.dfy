/** The nonblocking bidirectional copy of nonblock/strclinonb.c: standard input to the
    socket and the socket to standard output, with whatever short reads, short writes
    and EWOULDBLOCK the system calls produce. */
module NonblockSpec {

  const MAXLINE: nat := 4096

  /** One of the buffers `to` and `fr` with its two pointers (as indices). */
  datatype Buffer = Buffer(buf: seq<char>, iptr: nat, optr: nat)

  datatype Status =
    | Running
    | Returned     // normal termination
    | Exited       // err_sys or err_quit

  /** The locals of `str_cli`, and the history of what went through the descriptors. */
  datatype Client = Client(to: Buffer, fr: Buffer, stdineof: bool, status: Status, fins: nat,
                           stdinRead: string, sockWritten: string, sockRead: string, stdoutWritten: string)

  /** What `read` does: it delivers at most as many bytes as there is room for. */
  datatype ReadResult = Data(first: char, more: string) | Eof | WouldBlock | ReadError

  /** What `write` does: it takes at most `upTo` of the bytes offered. */
  datatype WriteResult = Wrote(upTo: nat) | WriteBlocked | WriteError

  /** The environment during one round of the loop: which descriptors `select` reports
      (of those asked for), and what the system calls then do. */
  datatype Round = Round(stdinReady: bool, sockReadable: bool, sockWritable: bool, stdoutWritable: bool,
                         onStdin: ReadResult, onSockRead: ReadResult, onStdout: WriteResult, onSockWrite: WriteResult)

  predicate Shaped(b: Buffer) {
    |b.buf| == MAXLINE && b.optr <= b.iptr <= MAXLINE
  }

  function Pending(b: Buffer): string
    requires Shaped(b)
  {
    b.buf[b.optr..b.iptr]
  }

  function Room(b: Buffer): nat
    requires Shaped(b)
  {
    MAXLINE - b.iptr
  }

  function Fill(b: Buffer, bytes: string): (r: Buffer)
    requires Shaped(b) && |bytes| <= Room(b)
    ensures Shaped(r)
  {
    Buffer(b.buf[..b.iptr] + bytes + b.buf[b.iptr + |bytes|..], b.iptr + |bytes|, b.optr)
  }

  function Drain(b: Buffer, n: nat): (r: Buffer)
    requires Shaped(b) && n <= b.iptr - b.optr
    ensures Shaped(r)
  {
    if b.optr + n == b.iptr then b.(iptr := 0, optr := 0) else b.(optr := b.optr + n)
  }

  /** The bytes that arrive when `r` is read into `room` > 0 bytes of space. */
  function Arriving(r: ReadResult, room: nat): (bytes: string)
    requires r.Data? && room > 0
    ensures 0 < |bytes| <= room
  {
    var all := [r.first] + r.more;
    if |all| <= room then all else all[..room]
  }

  function Taken(r: WriteResult, n: nat): (k: nat)
    requires r.Wrote?
    ensures k <= n
  {
    if r.upTo <= n then r.upTo else n
  }

  predicate Wf(s: Client) {
    Shaped(s.to) && Shaped(s.fr)
  }

  // ---------------------------------------------------------------------
  // The four system calls of a round
  // ---------------------------------------------------------------------

  function Shutdown(s: Client): Client {
    s.(fins := s.fins + 1)
  }

  /** Lines 42-62. */
  function ReadStdin(s: Client, r: ReadResult): (t: Client)
    requires Wf(s) && Room(s.to) > 0
    ensures Wf(t)
  {
    match r
    case WouldBlock => s
    case ReadError => s.(status := Exited)
    case Eof =>
      var t := s.(stdineof := true);
      if t.to.optr == t.to.iptr then Shutdown(t) else t
    case Data(_, _) =>
      var bytes := Arriving(r, Room(s.to));
      s.(to := Fill(s.to, bytes), stdinRead := s.stdinRead + bytes)
  }

  /** Lines 64-86. */
  function ReadSock(s: Client, r: ReadResult): (t: Client)
    requires Wf(s) && Room(s.fr) > 0
    ensures Wf(t)
  {
    match r
    case WouldBlock => s
    case ReadError => s.(status := Exited)
    case Eof => s.(status := if s.stdineof then Returned else Exited)
    case Data(_, _) =>
      var bytes := Arriving(r, Room(s.fr));
      s.(fr := Fill(s.fr, bytes), sockRead := s.sockRead + bytes)
  }

  /** Lines 89-103. */
  function WriteStdout(s: Client, r: WriteResult): (t: Client)
    requires Wf(s) && s.fr.iptr > s.fr.optr
    ensures Wf(t)
  {
    match r
    case WriteBlocked => s
    case WriteError => s.(status := Exited)
    case Wrote(_) =>
      var n := Taken(r, s.fr.iptr - s.fr.optr);
      s.(fr := Drain(s.fr, n), stdoutWritten := s.stdoutWritten + Pending(s.fr)[..n])
  }

  /** Lines 105-122. */
  function WriteSock(s: Client, r: WriteResult): (t: Client)
    requires Wf(s) && s.to.iptr > s.to.optr
    ensures Wf(t)
  {
    match r
    case WriteBlocked => s
    case WriteError => s.(status := Exited)
    case Wrote(_) =>
      var n := Taken(r, s.to.iptr - s.to.optr);
      var t := s.(to := Drain(s.to, n), sockWritten := s.sockWritten + Pending(s.to)[..n]);
      if s.to.optr + n == s.to.iptr && s.stdineof then Shutdown(t) else t
  }

  // ---------------------------------------------------------------------
  // One round of the loop
  // ---------------------------------------------------------------------

  predicate WantStdin(s: Client) { !s.stdineof && s.to.iptr < MAXLINE }
  predicate WantSockRead(s: Client) { s.fr.iptr < MAXLINE }
  predicate WantSockWrite(s: Client) { s.to.optr != s.to.iptr }
  predicate WantStdout(s: Client) { s.fr.optr != s.fr.iptr }

  function Part1(s: Client, e: Round): (t: Client)
    requires Wf(s)
    ensures Wf(t)
  {
    if e.stdinReady && WantStdin(s) then ReadStdin(s, e.onStdin) else s
  }

  function Part2(s: Client, ready: bool, r: ReadResult): (t: Client)
    requires Wf(s)
    ensures Wf(t)
  {
    if s.status == Running && ready && Room(s.fr) > 0 then ReadSock(s, r) else s
  }

  function Part3(s: Client, ready: bool, r: WriteResult): (t: Client)
    requires Wf(s)
    ensures Wf(t)
  {
    if s.status == Running && ready && s.fr.iptr > s.fr.optr then WriteStdout(s, r) else s
  }

  function Part4(s: Client, ready: bool, r: WriteResult): (t: Client)
    requires Wf(s)
    ensures Wf(t)
  {
    if s.status == Running && ready && s.to.iptr > s.to.optr then WriteSock(s, r) else s
  }

  /** The whole body: the descriptor sets are computed first, and a successful read
      makes the matching write be tried in the same round. */
  function Body(s: Client, e: Round): (t: Client)
    requires Wf(s)
    ensures Wf(t)
  {
    if s.status != Running then s
    else
      var s1 := Part1(s, e);
      var s2 := Part2(s1, e.sockReadable && WantSockRead(s), e.onSockRead);
      var s3 := Part3(s2, (e.stdoutWritable && WantStdout(s)) || s2.sockRead != s1.sockRead, e.onStdout);
      Part4(s3, (e.sockWritable && WantSockWrite(s)) || s1.stdinRead != s.stdinRead, e.onSockWrite)
  }

  function Run(s: Client, rounds: seq<Round>): (t: Client)
    requires Wf(s)
    ensures Wf(t)
  {
    if rounds == [] then s else Body(Run(s, rounds[..|rounds| - 1]), rounds[|rounds| - 1])
  }

  predicate Initial(s: Client) {
    && Wf(s) && s.to.iptr == s.to.optr == s.fr.iptr == s.fr.optr == 0
    && !s.stdineof && s.status == Running && s.fins == 0
    && s.stdinRead == s.sockWritten == s.sockRead == s.stdoutWritten == ""
  }

  // ---------------------------------------------------------------------
  // What every run keeps
  // ---------------------------------------------------------------------

  /** An empty buffer has both pointers at its start. */
  predicate Rewound(b: Buffer) {
    b.optr == b.iptr ==> b.iptr == 0
  }

  ghost predicate Inv(s: Client) {
    && Wf(s) && Rewound(s.to) && Rewound(s.fr)
    && s.stdinRead == s.sockWritten + Pending(s.to)
    && s.sockRead == s.stdoutWritten + Pending(s.fr)
    && s.fins == (if s.stdineof && s.to.optr == s.to.iptr then 1 else 0)
    && (s.status == Returned ==> s.stdineof)
  }

  lemma FillPending(b: Buffer, bytes: string)
    requires Shaped(b) && Rewound(b) && 0 < |bytes| <= Room(b)
    ensures var r := Fill(b, bytes); Rewound(r) && Pending(r) == Pending(b) + bytes
  {
  }

  lemma DrainPending(b: Buffer, n: nat)
    requires Shaped(b) && Rewound(b) && n <= b.iptr - b.optr
    ensures var r := Drain(b, n); Rewound(r) && Pending(b) == Pending(b)[..n] + Pending(r)
  {
  }

  lemma Part1KeepsInv(s: Client, e: Round)
    requires Inv(s)
    ensures Inv(Part1(s, e))
  {
    hide Fill, Pending;
    if e.stdinReady && WantStdin(s) && e.onStdin.Data? {
      var bytes := Arriving(e.onStdin, Room(s.to));
      FillPending(s.to, bytes);
      assert s.sockWritten + Pending(s.to) + bytes == s.sockWritten + (Pending(s.to) + bytes);
    }
  }

  lemma Part2KeepsInv(s: Client, ready: bool, r: ReadResult)
    requires Inv(s)
    ensures Inv(Part2(s, ready, r))
  {
    hide Fill, Pending;
    if s.status == Running && ready && Room(s.fr) > 0 && r.Data? {
      var bytes := Arriving(r, Room(s.fr));
      FillPending(s.fr, bytes);
      assert s.stdoutWritten + Pending(s.fr) + bytes == s.stdoutWritten + (Pending(s.fr) + bytes);
    }
  }

  lemma Part3KeepsInv(s: Client, ready: bool, r: WriteResult)
    requires Inv(s)
    ensures Inv(Part3(s, ready, r))
  {
    if s.status == Running && ready && s.fr.iptr > s.fr.optr && r.Wrote? {
      var n := Taken(r, s.fr.iptr - s.fr.optr);
      DrainPending(s.fr, n);
      var p, q := Pending(s.fr)[..n], Pending(Drain(s.fr, n));
      assert s.stdoutWritten + (p + q) == s.stdoutWritten + p + q;
    }
  }

  lemma Part4KeepsInv(s: Client, ready: bool, r: WriteResult)
    requires Inv(s)
    ensures Inv(Part4(s, ready, r))
  {
    if s.status == Running && ready && s.to.iptr > s.to.optr && r.Wrote? {
      var n := Taken(r, s.to.iptr - s.to.optr);
      DrainPending(s.to, n);
      var p, q := Pending(s.to)[..n], Pending(Drain(s.to, n));
      assert s.sockWritten + (p + q) == s.sockWritten + p + q;
    }
  }

  lemma BodyKeepsInv(s: Client, e: Round)
    requires Inv(s)
    ensures Inv(Body(s, e))
  {
    assert Wf(s);
    if s.status == Running {
      var s1 := Part1(s, e);
      Part1KeepsInv(s, e);
      var s2 := Part2(s1, e.sockReadable && WantSockRead(s), e.onSockRead);
      Part2KeepsInv(s1, e.sockReadable && WantSockRead(s), e.onSockRead);
      var out := (e.stdoutWritable && WantStdout(s)) || s2.sockRead != s1.sockRead;
      var s3 := Part3(s2, out, e.onStdout);
      Part3KeepsInv(s2, out, e.onStdout);
      Part4KeepsInv(s3, (e.sockWritable && WantSockWrite(s)) || s1.stdinRead != s.stdinRead, e.onSockWrite);
    }
  }

  lemma {:induction false} RunKeepsInv(s: Client, rounds: seq<Round>)
    requires Inv(s)
    ensures Inv(Run(s, rounds))
  {
    assert Wf(s);
    if rounds != [] {
      var n := |rounds| - 1;
      RunKeepsInv(s, rounds[..n]);
      BodyKeepsInv(Run(s, rounds[..n]), rounds[n]);
    }
  }

  /** At every point of every run no byte is lost, duplicated or reordered in either
      direction; FIN has been sent once if standard input has ended and all of it is on
      the socket, and otherwise not at all. */
  lemma CopiesFaithfully(s: Client, rounds: seq<Round>)
    requires Initial(s)
    ensures var t := Run(s, rounds);
      && t.stdinRead == t.sockWritten + Pending(t.to)
      && t.sockRead == t.stdoutWritten + Pending(t.fr)
      && t.fins == (if t.stdineof && t.sockWritten == t.stdinRead then 1 else 0)
      && (t.status == Returned ==> t.stdineof)
  {
    RunKeepsInv(s, rounds);
    var t := Run(s, rounds);
    assert t.sockWritten == t.stdinRead <==> |Pending(t.to)| == 0;
  }

  /** `select` is never called without a descriptor to wait for, and a full buffer
      always has something to write. */
  lemma SelectHasWork(s: Client, rounds: seq<Round>)
    requires Initial(s)
    ensures var t := Run(s, rounds);
      && (WantStdin(t) || WantSockRead(t) || WantSockWrite(t) || WantStdout(t))
      && (t.to.iptr == MAXLINE ==> WantSockWrite(t))
      && (t.fr.iptr == MAXLINE ==> WantStdout(t))
  {
    RunKeepsInv(s, rounds);
  }

  /** Behind the FIN nothing more is read from standard input or written to the socket. */
  lemma FinIsLast(s: Client, e: Round)
    requires Inv(s) && s.fins == 1
    ensures var t := Body(s, e);
      t.fins == 1 && t.sockWritten == s.sockWritten && t.stdinRead == s.stdinRead && t.stdineof && t.to == s.to
  {
    hide Pending;
  }

  lemma {:induction false} FinStaysLast(s: Client, rounds: seq<Round>)
    requires Inv(s) && s.fins == 1
    ensures var t := Run(s, rounds);
      t.fins == 1 && t.sockWritten == s.sockWritten && t.stdinRead == s.stdinRead
  {
    assert Wf(s);
    if rounds != [] {
      var n := |rounds| - 1;
      FinStaysLast(s, rounds[..n]);
      RunKeepsInv(s, rounds[..n]);
      FinIsLast(Run(s, rounds[..n]), rounds[n]);
    }
  }

  /** A round in which every requested descriptor is ready and every call transfers
      something makes headway: it ends the run, sees the end of standard input, or moves
      at least one byte. */
  predicate Willing(e: Round) {
    && e.stdinReady && e.sockReadable && e.sockWritable && e.stdoutWritable
    && (e.onStdin.Data? || e.onStdin == Eof) && (e.onSockRead.Data? || e.onSockRead == Eof)
    && e.onStdout.Wrote? && e.onStdout.upTo > 0 && e.onSockWrite.Wrote? && e.onSockWrite.upTo > 0
  }

  function Moved(s: Client): nat {
    |s.stdinRead| + |s.sockWritten| + |s.sockRead| + |s.stdoutWritten|
  }

  lemma PartsNeverUnmove(s: Client, e: Round, ready: bool)
    requires Wf(s)
    ensures Moved(Part1(s, e)) >= Moved(s) && Moved(Part2(s, ready, e.onSockRead)) >= Moved(s)
    ensures Moved(Part3(s, ready, e.onStdout)) >= Moved(s) && Moved(Part4(s, ready, e.onSockWrite)) >= Moved(s)
  {
    hide Fill, Drain;
  }

  lemma StdinLeavesOutput(s: Client, e: Round)
    requires Wf(s) && s.status == Running && Willing(e)
    ensures Part1(s, e).fr == s.fr && Part1(s, e).status == Running
  {
  }

  lemma SocketReadMoves(s: Client, r: ReadResult)
    requires Wf(s) && s.status == Running && Room(s.fr) > 0 && (r.Data? || r == Eof)
    ensures Part2(s, true, r).status != Running || Moved(Part2(s, true, r)) > Moved(s)
  {
    hide Fill;
  }

  lemma OutputMoves(s: Client, r: WriteResult)
    requires Wf(s) && s.status == Running && s.fr.iptr > s.fr.optr && r.Wrote? && r.upTo > 0
    ensures Moved(Part3(s, true, r)) > Moved(s)
  {
    hide Drain;
  }

  /** Such a round makes headway in every running state. */
  lemma Headway(s: Client, e: Round)
    requires Inv(s) && s.status == Running && Willing(e)
    ensures Body(s, e).status != Running || Moved(Body(s, e)) > Moved(s)
  {
    var s1 := Part1(s, e);
    StdinLeavesOutput(s, e);
    var s2 := Part2(s1, e.sockReadable && WantSockRead(s), e.onSockRead);
    if WantSockRead(s) {
      SocketReadMoves(s1, e.onSockRead);
    } else {
      assert s2 == s1 && WantStdout(s);
      OutputMoves(s2, e.onStdout);
    }
    var out := (e.stdoutWritable && WantStdout(s)) || s2.sockRead != s1.sockRead;
    var s3 := Part3(s2, out, e.onStdout);
    PartsNeverUnmove(s, e, true);
    PartsNeverUnmove(s1, e, e.sockReadable && WantSockRead(s));
    PartsNeverUnmove(s2, e, out);
    PartsNeverUnmove(s3, e, (e.sockWritable && WantSockWrite(s)) || s1.stdinRead != s.stdinRead);
  }
}

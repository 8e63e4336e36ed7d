/** What one round of nonblock/strclinonb.c reads and writes, and how the program ends, in
    terms of the calls made and their results. */
module NonblockRounds {
  import opened NonblockSpec

  // ---------------------------------------------------------------------
  // The calls of a round
  // ---------------------------------------------------------------------

  /** Standard input is read when it is ready, has not ended, and there is room. */
  predicate ReadsStdin(s: Client, e: Round) {
    s.status == Running && e.stdinReady && !s.stdineof && s.to.iptr < MAXLINE
  }

  predicate StdinFails(s: Client, e: Round) {
    ReadsStdin(s, e) && e.onStdin == ReadError
  }

  predicate StdinEnds(s: Client, e: Round) {
    ReadsStdin(s, e) && e.onStdin == Eof
  }

  /** The socket is read when it is readable and there is room, unless the program has
      ended in this round. */
  predicate ReadsSock(s: Client, e: Round) {
    s.status == Running && !StdinFails(s, e) && e.sockReadable && s.fr.iptr < MAXLINE
  }

  predicate SockFails(s: Client, e: Round) {
    ReadsSock(s, e) && e.onSockRead == ReadError
  }

  predicate SockEnds(s: Client, e: Round) {
    ReadsSock(s, e) && e.onSockRead == Eof
  }

  predicate OverByThen(s: Client, e: Round) {
    s.status != Running || StdinFails(s, e) || SockFails(s, e) || SockEnds(s, e)
  }

  /** Standard output is written when it was found writable for bytes that waited, or
      bytes have just been read from the socket. */
  predicate WritesStdout(s: Client, e: Round) {
    !OverByThen(s, e)
    && ((e.stdoutWritable && s.fr.optr != s.fr.iptr) || (ReadsSock(s, e) && e.onSockRead.Data?))
  }

  predicate StdoutFails(s: Client, e: Round) {
    WritesStdout(s, e) && e.onStdout == WriteError
  }

  /** The socket likewise. */
  predicate WritesSock(s: Client, e: Round) {
    !OverByThen(s, e) && !StdoutFails(s, e)
    && ((e.sockWritable && s.to.optr != s.to.iptr) || (ReadsStdin(s, e) && e.onStdin.Data?))
  }

  predicate SockWriteFails(s: Client, e: Round) {
    WritesSock(s, e) && e.onSockWrite == WriteError
  }

  /** Some call fails with something other than EWOULDBLOCK. */
  predicate Fails(s: Client, e: Round) {
    StdinFails(s, e) || SockFails(s, e) || StdoutFails(s, e) || SockWriteFails(s, e)
  }

  /** The bytes that a read delivers into `room` bytes of space. */
  function Got(r: ReadResult, room: nat): string {
    if !r.Data? then ""
    else if 1 + |r.more| <= room then [r.first] + r.more
    else ([r.first] + r.more)[..room]
  }

  /** What a write takes of the bytes offered. */
  function Put(r: WriteResult, offered: string): string {
    if !r.Wrote? then "" else if r.upTo <= |offered| then offered[..r.upTo] else offered
  }

  // ---------------------------------------------------------------------
  // One round
  // ---------------------------------------------------------------------

  lemma Part1Does(s: Client, e: Round)
    requires Inv(s) && s.status == Running
    ensures var s1 := Part1(s, e);
      && Inv(s1) && s1.fr == s.fr
      && (s1.sockRead, s1.stdoutWritten, s1.sockWritten) == (s.sockRead, s.stdoutWritten, s.sockWritten)
      && s1.stdinRead == s.stdinRead + (if ReadsStdin(s, e) then Got(e.onStdin, MAXLINE - s.to.iptr) else "")
      && (s1.stdineof <==> s.stdineof || StdinEnds(s, e))
      && s1.status == (if StdinFails(s, e) then Exited else Running)
      && Pending(s1.to) == Pending(s.to) + (if ReadsStdin(s, e) then Got(e.onStdin, MAXLINE - s.to.iptr) else "")
  {
    hide Fill, Pending;
    Part1KeepsInv(s, e);
    if ReadsStdin(s, e) && e.onStdin.Data? {
      FillPending(s.to, Arriving(e.onStdin, Room(s.to)));
    } else {
      assert s.stdinRead + "" == s.stdinRead && Pending(s.to) + "" == Pending(s.to);
    }
  }

  lemma Part2Does(s: Client, ready: bool, r: ReadResult)
    requires Inv(s)
    ensures var t := Part2(s, ready, r);
      var tried := s.status == Running && ready && s.fr.iptr < MAXLINE;
      && Inv(t) && t.to == s.to && t.stdineof == s.stdineof
      && (t.stdinRead, t.stdoutWritten, t.sockWritten) == (s.stdinRead, s.stdoutWritten, s.sockWritten)
      && t.sockRead == s.sockRead + (if tried then Got(r, MAXLINE - s.fr.iptr) else "")
      && Pending(t.fr) == Pending(s.fr) + (if tried then Got(r, MAXLINE - s.fr.iptr) else "")
      && t.status == (if tried && r == ReadError then Exited
                      else if tried && r == Eof then (if s.stdineof then Returned else Exited) else s.status)
  {
    hide Fill, Pending;
    Part2KeepsInv(s, ready, r);
    if s.status == Running && ready && s.fr.iptr < MAXLINE && r.Data? {
      FillPending(s.fr, Arriving(r, Room(s.fr)));
    } else {
      assert s.sockRead + "" == s.sockRead && Pending(s.fr) + "" == Pending(s.fr);
    }
  }

  lemma Part3Does(s: Client, ready: bool, r: WriteResult)
    requires Inv(s)
    ensures var t := Part3(s, ready, r);
      var writes := s.status == Running && ready && Pending(s.fr) != "";
      && Inv(t) && t.to == s.to && t.stdineof == s.stdineof
      && (t.stdinRead, t.sockRead, t.sockWritten) == (s.stdinRead, s.sockRead, s.sockWritten)
      && t.stdoutWritten == s.stdoutWritten + (if writes then Put(r, Pending(s.fr)) else "")
      && t.status == (if writes && r == WriteError then Exited else s.status)
  {
    hide Drain;
    Part3KeepsInv(s, ready, r);
    assert s.stdoutWritten + "" == s.stdoutWritten;
  }

  lemma Part4Does(s: Client, ready: bool, r: WriteResult)
    requires Inv(s)
    ensures var t := Part4(s, ready, r);
      var writes := s.status == Running && ready && Pending(s.to) != "";
      && Inv(t) && t.stdineof == s.stdineof
      && (t.stdinRead, t.sockRead, t.stdoutWritten) == (s.stdinRead, s.sockRead, s.stdoutWritten)
      && t.sockWritten == s.sockWritten + (if writes then Put(r, Pending(s.to)) else "")
      && t.status == (if writes && r == WriteError then Exited else s.status)
  {
    hide Drain;
    Part4KeepsInv(s, ready, r);
    assert s.sockWritten + "" == s.sockWritten;
  }

  lemma GotSome(r: ReadResult, room: nat)
    requires room > 0
    ensures Got(r, room) != "" <==> r.Data?
  {
  }

  lemma Grown(a: string, b: string)
    ensures a + b != a <==> b != ""
  {
    assert |a + b| == |a| + |b|;
    if b == "" {
      assert a + b == a;
    }
  }

  /** A round reads what the two reads deliver and writes what the two writes take of the
      bytes in hand, those just read included; what is not read or written stays. */
  lemma RoundExactly(s: Client, e: Round)
    requires Inv(s) && s.status == Running
    ensures var t := Body(s, e);
      var in1 := if ReadsStdin(s, e) then Got(e.onStdin, MAXLINE - s.to.iptr) else "";
      var in2 := if ReadsSock(s, e) then Got(e.onSockRead, MAXLINE - s.fr.iptr) else "";
      && t.stdinRead == s.stdinRead + in1 && t.sockRead == s.sockRead + in2
      && t.stdoutWritten ==
         s.stdoutWritten + (if WritesStdout(s, e) then Put(e.onStdout, Pending(s.fr) + in2) else "")
      && t.sockWritten == s.sockWritten + (if WritesSock(s, e) then Put(e.onSockWrite, Pending(s.to) + in1) else "")
      && (t.stdineof <==> s.stdineof || StdinEnds(s, e))
      && (t.status == Returned <==> SockEnds(s, e) && t.stdineof)
      && (t.status == Exited <==> Fails(s, e) || (SockEnds(s, e) && !t.stdineof))
  {
    hide Inv, Part1, Part2, Part3, Part4, Pending, Got, Put;
    InvShaped(s);
    Part1Does(s, e);
    var s1 := Part1(s, e);
    var ready2 := e.sockReadable && WantSockRead(s);
    Part2Does(s1, ready2, e.onSockRead);
    var s2 := Part2(s1, ready2, e.onSockRead);
    var ready3 := (e.stdoutWritable && WantStdout(s)) || s2.sockRead != s1.sockRead;
    Part3Does(s2, ready3, e.onStdout);
    var s3 := Part3(s2, ready3, e.onStdout);
    var ready4 := (e.sockWritable && WantSockWrite(s)) || s1.stdinRead != s.stdinRead;
    Part4Does(s3, ready4, e.onSockWrite);
    if ReadsStdin(s, e) {
      GotSome(e.onStdin, MAXLINE - s.to.iptr);
    }
    if ReadsSock(s, e) {
      GotSome(e.onSockRead, MAXLINE - s.fr.iptr);
    }
    Grown(s.stdinRead, if ReadsStdin(s, e) then Got(e.onStdin, MAXLINE - s.to.iptr) else "");
    Grown(s1.sockRead, if ReadsSock(s, e) then Got(e.onSockRead, MAXLINE - s.fr.iptr) else "");
    PendingSome(s);
  }

  lemma InvShaped(s: Client)
    requires Inv(s)
    ensures Wf(s)
  {
  }

  lemma PendingSome(s: Client)
    requires Wf(s)
    ensures Pending(s.to) != "" <==> s.to.optr != s.to.iptr
    ensures Pending(s.fr) != "" <==> s.fr.optr != s.fr.iptr
    ensures forall more: string :: more != "" ==> Pending(s.to) + more != "" && Pending(s.fr) + more != ""
  {
    assert |Pending(s.to)| == s.to.iptr - s.to.optr && |Pending(s.fr)| == s.fr.iptr - s.fr.optr;
  }

  // ---------------------------------------------------------------------
  // How the program ends
  // ---------------------------------------------------------------------

  /** The state before round `k`. */
  function Before(s: Client, rounds: seq<Round>, k: nat): Client
    requires Wf(s) && k <= |rounds|
  {
    Run(s, rounds[..k])
  }

  /** Standard input has come to its end in one of the first `n` rounds. */
  ghost predicate InputEnded(s: Client, rounds: seq<Round>, n: nat)
    requires Wf(s) && n <= |rounds|
  {
    exists j :: 0 <= j < n && StdinEnds(Before(s, rounds, j), rounds[j])
  }

  /** Round `k` reads the socket's end, standard input having ended. */
  ghost predicate EndsWell(s: Client, rounds: seq<Round>, k: nat)
    requires Wf(s) && k < |rounds|
  {
    SockEnds(Before(s, rounds, k), rounds[k]) && InputEnded(s, rounds, k + 1)
  }

  /** Some call of round `k` fails, or reads the socket's end too early. */
  ghost predicate EndsBadly(s: Client, rounds: seq<Round>, k: nat)
    requires Wf(s) && k < |rounds|
  {
    var t := Before(s, rounds, k);
    t.status == Running && (Fails(t, rounds[k]) || (SockEnds(t, rounds[k]) && !InputEnded(s, rounds, k + 1)))
  }

  lemma BeforeSnoc(s: Client, rounds: seq<Round>, e: Round, k: nat)
    requires Wf(s) && k <= |rounds|
    ensures Before(s, rounds + [e], k) == Before(s, rounds, k)
    ensures k < |rounds| ==> (rounds + [e])[k] == rounds[k]
  {
    assert (rounds + [e])[..k] == rounds[..k];
  }

  lemma InputEndedSnoc(s: Client, rounds: seq<Round>, e: Round, n: nat)
    requires Wf(s) && n <= |rounds|
    ensures InputEnded(s, rounds + [e], n) <==> InputEnded(s, rounds, n)
    ensures InputEnded(s, rounds + [e], |rounds| + 1) <==>
      InputEnded(s, rounds, |rounds|) || StdinEnds(Before(s, rounds, |rounds|), e)
  {
    hide Before, StdinEnds;
    var more := rounds + [e];
    forall j | 0 <= j <= |rounds|
      ensures Before(s, more, j) == Before(s, rounds, j) && (j < |rounds| ==> more[j] == rounds[j])
    {
      BeforeSnoc(s, rounds, e, j);
    }
    if InputEnded(s, rounds, |rounds|) {
      var j :| 0 <= j < |rounds| && StdinEnds(Before(s, rounds, j), rounds[j]);
      assert StdinEnds(Before(s, more, j), more[j]);
    }
    if StdinEnds(Before(s, rounds, |rounds|), e) {
      assert StdinEnds(Before(s, more, |rounds|), more[|rounds|]);
    }
    if InputEnded(s, rounds, n) {
      var j :| 0 <= j < n && StdinEnds(Before(s, rounds, j), rounds[j]);
      assert StdinEnds(Before(s, more, j), more[j]);
    }
  }

  lemma EndSnoc(s: Client, rounds: seq<Round>, e: Round, k: nat)
    requires Wf(s) && k < |rounds|
    ensures EndsWell(s, rounds + [e], k) <==> EndsWell(s, rounds, k)
    ensures EndsBadly(s, rounds + [e], k) <==> EndsBadly(s, rounds, k)
  {
    hide Before, StdinEnds, InputEnded;
    BeforeSnoc(s, rounds, e, k);
    InputEndedSnoc(s, rounds, e, k + 1);
  }

  /** The program has returned if and only if some round read the socket's end behind the
      end of standard input, and exited with an error if and only if some round read it
      before that, or had a call fail with something other than EWOULDBLOCK. */
  lemma {:induction false} EndsExactly(s: Client, rounds: seq<Round>)
    requires Initial(s)
    ensures var t := Run(s, rounds);
      && Inv(t) && (t.stdineof <==> InputEnded(s, rounds, |rounds|))
      && (t.status == Returned <==> exists k :: 0 <= k < |rounds| && EndsWell(s, rounds, k))
      && (t.status == Exited <==> exists k :: 0 <= k < |rounds| && EndsBadly(s, rounds, k))
    decreases |rounds|
  {
    hide Body, Inv, Before, InputEnded, EndsWell, EndsBadly;
    StartInv(s);
    if rounds == [] {
      NotYet(s);
    } else {
      var n := |rounds| - 1;
      var before, e := rounds[..n], rounds[n];
      assert rounds == before + [e];
      EndsExactly(s, before);
      InputEndedSnoc(s, before, e, n);
      LastRound(s, before, e);
      forall k | 0 <= k < n
        ensures EndsWell(s, rounds, k) == EndsWell(s, before, k) && EndsBadly(s, rounds, k) == EndsBadly(s, before, k)
      {
        EndSnoc(s, before, e, k);
      }
    }
  }

  lemma StartInv(s: Client)
    requires Initial(s)
    ensures Inv(s)
  {
  }

  lemma NotYet(s: Client)
    requires Initial(s)
    ensures !InputEnded(s, [], 0)
  {
  }

  /** What the last round adds. */
  lemma LastRound(s: Client, before: seq<Round>, e: Round)
    requires Wf(s) && Inv(Run(s, before)) && (Run(s, before).stdineof <==> InputEnded(s, before, |before|))
    ensures var t, rounds, n := Run(s, before), before + [e], |before|;
      var u := Run(s, rounds);
      && u == Body(t, e) && Inv(u) && Before(s, before, n) == t
      && (u.stdineof <==> t.stdineof || StdinEnds(t, e))
      && (t.status != Running ==> u == t && !EndsWell(s, rounds, n) && !EndsBadly(s, rounds, n))
      && (t.status == Running ==>
        (u.status == Returned <==> EndsWell(s, rounds, n)) && (u.status == Exited <==> EndsBadly(s, rounds, n)))
  {
    hide Inv, InputEnded, Fails, Part1, Part2, Part3, Part4;
    var t, rounds, n := Run(s, before), before + [e], |before|;
    assert rounds[..n] == before && before[..n] == before && rounds[n] == e;
    BodyKeepsInv(t, e);
    InputEndedSnoc(s, before, e, n);
    if t.status == Running {
      RoundExactly(t, e);
    }
  }
}

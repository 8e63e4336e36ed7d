/** `dg_send_recv` on its static variables, with its retransmit and receive loops, proved
    to run as `DgSendSpec` describes. */
module DgSendClient {
  import opened Rtt
  import opened DgSendSpec

  class DgClient {
    const rttinfo: RttInfo
    var rttinit: bool
    var sendhdrSeq: nat
    // the running call and its surroundings
    var phase: Phase
    var calls: nat
    var request: string
    var room: nat
    var first: nat
    var began: nat
    var armed: nat
    var clock: nat
    var net: seq<Xmit>
    var outcome: Outcome

    ghost function State(): Client
      reads this, rttinfo
    {
      Client(rttinfo.Value(), rttinit, sendhdrSeq, phase, calls, request, room, first, began, armed, clock, net,
             outcome)
    }

    constructor ()
      ensures Initial(State()) && fresh(rttinfo)
    {
      rttinfo := new RttInfo();
      rttinit, sendhdrSeq, phase, calls, request, net := false, 0, Idle, 0, "", [];
      room, first, began, armed, clock, outcome := 0, 0, 0, 0, 0, Unfinished;
    }

    /** Lines 60-63, at the label `sendagain`. */
    method SendAgain(now: nat)
      modifies this
      ensures State() == Transmit(old(State()), now)
    {
      var ts := rttinfo.RttTs(now);
      net := net + [Xmit(calls, sendhdrSeq, ts, now, request)];   // Sendmsg
      var seconds := rttinfo.RttStart();
      if seconds < 0 {
        seconds := 0;
      }
      armed := armed + seconds;                                   // alarm(seconds)
      phase := Waiting(now + seconds * MICRO);
      clock := now;
    }

    /** Lines 26-30. */
    method FirstTime(now: nat)
      modifies this, rttinfo
      ensures var s := old(State());
        State() == s.(est := if s.rttinit then s.est else Init(s.est, now), rttinit := true)
    {
      hide Init;
      if !rttinit {
        rttinfo.RttInit(now);
        rttinit := true;
      }
    }

    /** Lines 26-54. */
    method PrepareCall(now: nat, outbuff: string, inbytes: nat)
      modifies this, rttinfo
      ensures State() == Prepare(old(State()), now, outbuff, inbytes)
    {
      hide Init;
      FirstTime(now);
      sendhdrSeq := (sendhdrSeq + 1) % UINT32;
      calls, request, room, first := calls + 1, outbuff, inbytes, |net|;
      began, armed, outcome := now, 0, Unfinished;
      rttinfo.RttNewpack();
    }

    /** Lines 26-63: a new call. */
    method NewCall(now: nat, outbuff: string, inbytes: nat)
      modifies this, rttinfo
      ensures State() == BeginCall(old(State()), now, outbuff, inbytes)
    {
      hide Prepare, Transmit;
      PrepareCall(now, outbuff, inbytes);
      SendAgain(now);
    }

    /** Line 82: one Recvmsg; true when it is the awaited reply (lines 88-92). */
    method OnReply(i: nat, now: nat) returns (answered: bool)
      requires i < |net|
      modifies this, rttinfo
      ensures State() == Receive(old(State()), i, now)
      ensures answered == (old(net)[i].seqno == sendhdrSeq)
    {
      clock := now;
      var recvhdr := net[i];
      if recvhdr.seqno != sendhdrSeq {
        return false;
      }
      var ts := rttinfo.RttTs(now);
      var sample := (ts - recvhdr.ts) % UINT32;
      rttinfo.RttStop(sample);
      phase := Idle;   // alarm(0)
      outcome := Answered(Cut(recvhdr.payload, room), sample, i);
      return true;
    }

    /** Lines 68-79: the jump out of the signal handler; true when the call gives up. */
    method OnAlarm() returns (giveUp: bool)
      requires phase.Waiting?
      modifies this, rttinfo
      ensures State() == ExpireAlarm(old(State())) && giveUp == (phase == Idle)
    {
      clock := phase.deadline;
      giveUp := rttinfo.RttTimeout();
      if giveUp {
        rttinit := false;
        phase := Idle;
        outcome := GaveUp;
      } else {
        SendAgain(clock);
      }
    }

    /** One call, up to its end or the end of `env`, the events that reach the process
        while it waits. `used` of them have been consumed. */
    method DgSendRecv(now: nat, outbuff: string, inbytes: nat, env: seq<Event>) returns (used: nat)
      requires Possible(State(), Begin(now, outbuff, inbytes)) && forall e :: e in env ==> !e.Begin?
      modifies this, rttinfo
      ensures used <= |env| && (phase == Idle || used == |env|)
      ensures State() == Run(Step(old(State()), Begin(now, outbuff, inbytes)), env[..used])
    {
      hide BeginCall, Receive, ExpireAlarm;
      ghost var s := Step(State(), Begin(now, outbuff, inbytes));
      NewCall(now, outbuff, inbytes);
      used := 0;
      while used < |env| && phase.Waiting?
        invariant used <= |env| && State() == Run(s, env[..used])
        decreases |env| - used
      {
        ghost var t := State();
        ghost var before := env[..used];
        assert env[used] in env && env[..used + 1][..used] == before;
        match env[used] {
        case Reply(i, at) =>
          if i < |net| && clock <= at <= phase.deadline {
            var answered := OnReply(i, at);
          }
        case Runt(at) =>
          if clock <= at <= phase.deadline {
            clock := at;
          }
        case Expire =>
          var giveUp := OnAlarm();
        }
        used := used + 1;
      }
    }
  }

  /** Calls in sequence, each with its request, its buffer and its surroundings. Whenever
      one is answered, it is by the echo of its own request, as far as the buffer holds it.
      Only the last can be left unfinished, and only for want of expiries: with four of
      them around every call, all the calls come to their ends. */
  method CallsInSequence(requests: seq<(nat, string, nat)>, env: seq<seq<Event>>)
    returns (client: DgClient, echoes: seq<Outcome>)
    requires |requests| == |env| <= UINT32
    requires forall k, e :: 0 <= k < |env| && e in env[k] ==> !e.Begin?
    ensures |echoes| <= |requests|
    ensures forall k :: 0 <= k < |echoes| && echoes[k].Answered? ==>
      echoes[k].payload == Cut(requests[k].1, requests[k].2)
    ensures forall k :: 0 <= k < |echoes| && echoes[k].Unfinished? ==> k == |echoes| - 1 && Expiries(env[k]) < 4
    ensures |echoes| == |requests| || (echoes != [] && echoes[|echoes| - 1].Unfinished?)
  {
    hide Inv, Step, Run, Cut;
    client := new DgClient();
    echoes := [];
    InitialInv(client.State());
    var k := 0;
    while k < |requests| && client.phase == Idle
      invariant 0 <= k <= |requests| && |echoes| == k && client.calls == k
      invariant Inv(client.State()) && fresh(client) && fresh(client.rttinfo)
      invariant forall j :: 0 <= j < k && echoes[j].Answered? ==>
        echoes[j].payload == Cut(requests[j].1, requests[j].2)
      invariant forall j :: 0 <= j < k && echoes[j].Unfinished? ==>
        j == k - 1 && client.phase != Idle && Expiries(env[j]) < 4
      invariant client.phase != Idle ==> k > 0 && echoes[k - 1].Unfinished?
    {
      var (at, request, room) := requests[k];
      var now := if at < client.clock then client.clock else at;
      ghost var s := client.State();
      var used := client.DgSendRecv(now, request, room, env[k]);
      CallAnswered(s, now, request, room, env[k][..used]);
      CallEnds(s, now, request, room, env[k][..used]);
      if client.phase.Waiting? {
        assert env[k][..used] == env[k];
      }
      echoes := echoes + [client.outcome];
      k := k + 1;
    }
  }

  /** How often the alarm expires. */
  function Expiries(env: seq<Event>): nat {
    if env == [] then 0 else Expiries(env[..|env| - 1]) + if env[|env| - 1].Expire? then 1 else 0
  }

  /** A call that still waits has seen at most three expiries; one that does not has an
      outcome. */
  lemma {:induction false} CallEnds(s: Client, now: nat, outbuff: string, inbytes: nat, env: seq<Event>)
    requires Inv(s) && Possible(s, Begin(now, outbuff, inbytes)) && forall e :: e in env ==> !e.Begin?
    ensures var t := Run(Step(s, Begin(now, outbuff, inbytes)), env);
      && (t.phase.Waiting? <==> t.outcome.Unfinished?)
      && (t.phase.Waiting? ==> Expiries(env) == t.est.nrexmt <= RTT_MAXNREXMT)
  {
    hide Stamp, Start, Stop;
    var b := Step(s, Begin(now, outbuff, inbytes));
    if env != [] {
      var n := |env| - 1;
      CallEnds(s, now, outbuff, inbytes, env[..n]);
      assert env[n] in env;
    }
  }

  /** Within one call an answer is the echo of the request. */
  lemma {:induction false} CallAnswered(s: Client, now: nat, outbuff: string, inbytes: nat, env: seq<Event>)
    requires Inv(s) && Possible(s, Begin(now, outbuff, inbytes)) && s.calls < UINT32
    requires forall e :: e in env ==> !e.Begin?
    ensures var t := Run(Step(s, Begin(now, outbuff, inbytes)), env);
      && Inv(t) && t.calls == s.calls + 1 && t.request == outbuff && t.room == inbytes
      && (t.outcome.Answered? ==> t.outcome.payload == Cut(outbuff, inbytes))
  {
    hide Cut;
    var b := Step(s, Begin(now, outbuff, inbytes));
    StepKeepsInv(s, Begin(now, outbuff, inbytes));
    if env != [] {
      var n := |env| - 1;
      CallAnswered(s, now, outbuff, inbytes, env[..n]);
      var t := Run(b, env[..n]);
      assert env[n] in env;
      EventAnswered(t, env[n]);
    }
  }

  lemma EventAnswered(t: Client, e: Event)
    requires Inv(t) && t.calls <= UINT32 && !e.Begin?
    requires t.outcome.Answered? ==> t.outcome.payload == Cut(t.request, t.room)
    ensures var u := Step(t, e);
      && Inv(u) && u.calls == t.calls && u.request == t.request && u.room == t.room
      && (u.outcome.Answered? ==> u.outcome.payload == Cut(u.request, u.room))
  {
    hide Stamp, Stop, Start, Cut;
    StepKeepsInv(t, e);
    if Possible(t, e) && e.Reply? {
      assert Numbered(t.net[e.i], t.calls, t.clock);
      if e.i < t.first {
        SeqDistinct(t.net[e.i].call, t.calls);
      }
    }
  }
}

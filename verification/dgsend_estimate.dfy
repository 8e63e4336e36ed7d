/** How the calls of rtt/dg_send_recv.c drive the estimator of lib/rtt.c: which samples
    reach it, and which alarms come of it. */
module DgSendEstimate {
  import opened Rtt
  import opened RttMeans
  import opened DgSendSpec

  // ---------------------------------------------------------------------
  // The samples of a run
  // ---------------------------------------------------------------------

  /** Before this event there is no estimate: no call yet, or the last one gave up. */
  predicate NoEstimate(s: Client) {
    s.calls == 0 || s.outcome == GaveUp
  }

  predicate Starts(s: Client, e: Event) {
    Possible(s, e) && e.Begin? && NoEstimate(s)
  }

  /** A reply to one of the transmissions of the call that waits. */
  predicate AnswersNow(s: Client, e: Event) {
    Possible(s, e) && e.Reply? && s.first <= e.i
  }

  /** When the last `rtt_init` was, in microseconds. */
  function LastInit(s: Client, events: seq<Event>): nat {
    if events == [] then 0
    else
      var before, e := events[..|events| - 1], events[|events| - 1];
      if Starts(Run(s, before), e) then e.now else LastInit(s, before)
  }

  /** The ages in milliseconds of the transmissions answered since then. */
  function Samples(s: Client, events: seq<Event>): seq<nat> {
    if events == [] then []
    else
      var before, e := events[..|events| - 1], events[|events| - 1];
      var t := Run(s, before);
      if Starts(t, e) then []
      else if AnswersNow(t, e) && t.net[e.i].time <= e.now then
        Samples(s, before) + [e.now / 1000 - t.net[e.i].time / 1000]
      else Samples(s, before)
  }

  /** A new estimate whose first second is that of `at`. */
  function Blank(at: nat): Estimate {
    Init(Estimate(0.0, 0.0, 0.0, 0.0, 0, 0), at)
  }

  /** The smoothed values are those of `e`, and the stamps have its base. */
  predicate Smoothed(s: Client, e: Estimate) {
    s.est.srtt == e.srtt && s.est.rttvar == e.rttvar && s.est.base == e.base
  }

  /** `rttinit` says whether there is an estimate. */
  predicate Flagged(s: Client) {
    && (s.calls == 0 ==> s.phase == Idle && !s.rttinit)
    && (s.calls > 0 ==> (s.rttinit <==> s.outcome != GaveUp)) && (s.phase.Waiting? ==> s.outcome == Unfinished)
  }

  lemma StepFlagged(s: Client, e: Event)
    requires Flagged(s)
    ensures Flagged(Step(s, e))
  {
    hide Stamp, Start, Stop, Init;
  }

  lemma StopDependsOn(e: Estimate, f: Estimate, ms: nat)
    requires e.srtt == f.srtt && e.rttvar == f.rttvar && e.base == f.base
    ensures var x, y := Stop(e, ms), Stop(f, ms); x.srtt == y.srtt && x.rttvar == y.rttvar && x.base == y.base
  {
  }

  /** An accepted reply hands the true age of what it answers to the estimator. */
  lemma AcceptedSample(s: Client, e: Event)
    requires Inv(s) && s.calls <= UINT32 && Possible(s, e) && e.Reply?
    ensures e.now >= s.net[e.i].time
    ensures Step(s, e).est ==
      if s.first <= e.i then Stop(s.est, e.now / 1000 - s.net[e.i].time / 1000) else s.est
  {
    hide Stop, Start, Stamp;
    var x := s.net[e.i];
    assert Numbered(x, s.calls, s.clock);
    if e.i < s.first {
      SeqDistinct(x.call, s.calls);
    } else {
      CallDuration(s);
      StampDifference(s.est.base, x.time, e.now);
    }
  }

  /** Any other event leaves the smoothed values alone, unless it starts anew. */
  lemma OtherEvent(s: Client, e: Event)
    requires Flagged(s) && !e.Reply?
    ensures Smoothed(Step(s, e), if Starts(s, e) then Blank(e.now) else s.est)
  {
    hide Stamp, Start;
  }

  lemma SamplesSnoc(e: Estimate, samples: seq<nat>, ms: nat)
    ensures StopAll(e, samples + [ms]) == Stop(StopAll(e, samples), ms)
  {
    assert (samples + [ms])[..|samples|] == samples;
  }

  /** After any events, in the first 2^32 calls, smoothed time and deviation are what
      `rtt_stop` makes, from the last `rtt_init` on, of the true ages of the transmissions
      answered since: of all of these, each once and in order, and of nothing else. */
  lemma {:induction false} EstimateIs(s: Client, events: seq<Event>)
    requires Initial(s) && Run(s, events).calls <= UINT32
    ensures Inv(Run(s, events)) && Flagged(Run(s, events))
    ensures var t := Run(s, events);
      t.calls > 0 ==> Smoothed(t, StopAll(Blank(LastInit(s, events)), Samples(s, events)))
    decreases |events|
  {
    hide Step, Stop, Blank, Starts, Inv, Flagged, Initial;
    if events == [] {
      StartFlagged(s);
    } else {
      var before, e := events[..|events| - 1], events[|events| - 1];
      var t := Run(s, before);
      CallsGrow(t, e);
      EstimateIs(s, before);
      StepKeepsInv(t, e);
      StepFlagged(t, e);
      if AnswersNow(t, e) || (e.Reply? && Possible(t, e)) {
        AcceptedSample(t, e);
        NotStarting(t, e);
        if AnswersNow(t, e) {
          var ms := e.now / 1000 - t.net[e.i].time / 1000;
          SamplesSnoc(Blank(LastInit(s, before)), Samples(s, before), ms);
          StopDependsOn(t.est, StopAll(Blank(LastInit(s, before)), Samples(s, before)), ms);
        }
      } else {
        NextEstimate(t, e);
      }
    }
  }

  lemma StartFlagged(s: Client)
    requires Initial(s)
    ensures Inv(s) && Flagged(s) && s.calls == 0
  {
  }

  lemma CallsGrow(t: Client, e: Event)
    ensures t.calls <= Step(t, e).calls
  {
    hide Stamp, Start, Stop, Init;
  }

  lemma NotStarting(t: Client, e: Event)
    requires e.Reply? && Flagged(t) && Possible(t, e)
    ensures !Starts(t, e) && Step(t, e).calls == t.calls > 0
  {
    hide Stamp, Stop;
  }

  lemma NextEstimate(t: Client, e: Event)
    requires Flagged(t) && !(e.Reply? && Possible(t, e))
    ensures Smoothed(Step(t, e), if Starts(t, e) then Blank(e.now) else t.est)
    ensures Starts(t, e) || (Step(t, e).calls > 0 ==> t.calls > 0)
    ensures StopAll(if Starts(t, e) then Blank(e.now) else t.est, []) == if Starts(t, e) then Blank(e.now) else t.est
  {
    hide Stamp, Start;
    if !e.Reply? {
      OtherEvent(t, e);
    }
  }

  // ---------------------------------------------------------------------
  // The alarms
  // ---------------------------------------------------------------------

  /** The whole number of seconds next to `x`. */
  predicate Nearest(n: int, x: real) {
    n as real - 0.5 <= x < n as real + 0.5
  }

  /** The timeout follows from the smoothed values, doubled for each retransmission. */
  predicate Timed(s: Client) {
    && (s.phase == Idle && s.rttinit ==> s.est.rto == Rto(s.est.srtt, s.est.rttvar))
    && (s.phase.Waiting? ==>
      && s.net != [] && s.est.rto == Backoff(s.est.nrexmt) as real * Rto(s.est.srtt, s.est.rttvar)
      && s.phase.deadline == s.net[|s.net| - 1].time + Start(s.est) * MICRO)
  }

  lemma StepTimed(s: Client, e: Event)
    requires Inv(s) && Timed(s)
    ensures Timed(Step(s, e))
  {
    hide Stamp, Rto, Start, Backoff;
    if Possible(s, e) {
      match e
      case Begin(now, outbuff, inbytes) => BeginTimed(s, now, outbuff, inbytes);
      case Reply(i, now) =>
      case Runt(now) =>
      case Expire => ExpireTimed(s);
    }
  }

  lemma BeginTimed(s: Client, now: nat, outbuff: string, inbytes: nat)
    requires Inv(s) && Timed(s) && Possible(s, Begin(now, outbuff, inbytes))
    ensures Timed(BeginCall(s, now, outbuff, inbytes))
  {
    hide Stamp, Rto;
    var t := BeginCall(s, now, outbuff, inbytes);
    InitSound(s.est, now);
    StartBounds(t.est, 1);
  }

  lemma ExpireTimed(s: Client)
    requires Inv(s) && Timed(s) && s.phase.Waiting?
    ensures Timed(ExpireAlarm(s))
  {
    hide Stamp, Rto;
    var t := ExpireAlarm(s);
    if t.phase.Waiting? {
      StartBounds(t.est, Backoff(t.est.nrexmt));
    }
  }

  lemma {:induction false} RunTimed(s: Client, events: seq<Event>)
    requires Initial(s)
    ensures Inv(Run(s, events)) && Timed(Run(s, events))
    decreases |events|
  {
    hide Step, Inv, Timed, Initial;
    if events == [] {
      StartTimed(s);
    } else {
      var before := events[..|events| - 1];
      RunTimed(s, before);
      StepKeepsInv(Run(s, before), events[|events| - 1]);
      StepTimed(Run(s, before), events[|events| - 1]);
    }
  }

  lemma StartTimed(s: Client)
    requires Initial(s)
    ensures Inv(s) && Timed(s)
  {
  }

  /** While a call waits its alarm is set for the smoothed time plus four deviations,
      between 2 and 60 seconds, times 2 for each transmission beyond the first, to the
      nearest second after the last transmission. */
  lemma AlarmIs(s: Client, events: seq<Event>)
    requires Initial(s) && Run(s, events).phase.Waiting?
    ensures var t := Run(s, events);
      && 1 <= |t.net| - t.first <= 4
      && var v := t.est.srtt + 4.0 * t.est.rttvar;
      var rto := if v < 2.0 then 2.0 else if v > 60.0 then 60.0 else v;
      var seconds := (t.phase.deadline - t.net[|t.net| - 1].time) / MICRO;
      && t.phase.deadline == t.net[|t.net| - 1].time + seconds * MICRO
      && Nearest(seconds, [1.0, 2.0, 4.0, 8.0][|t.net| - t.first - 1] * rto)
  {
    hide Inv, Timed, Run, Start;
    RunTimed(s, events);
    var t := Run(s, events);
    CallDuration(t);
    TimedIs(t);
    StartNearest(t.est);
    WholeSeconds(Start(t.est));
  }

  lemma TimedIs(t: Client)
    requires Inv(t) && Timed(t) && t.phase.Waiting?
    ensures t.net != [] && |t.net| - t.first - 1 == t.est.nrexmt <= 3
    ensures t.phase.deadline == t.net[|t.net| - 1].time + Start(t.est) * MICRO
    ensures t.est.rto == [1.0, 2.0, 4.0, 8.0][t.est.nrexmt] * Rto(t.est.srtt, t.est.rttvar)
  {
    hide Stamp, Rto, Start;
  }

  lemma StartNearest(e: Estimate)
    ensures Nearest(Start(e), e.rto)
  {
    var x := e.rto + 0.5;
    assert x.Floor as real <= x < x.Floor as real + 1.0;
  }

  lemma WholeSeconds(n: int)
    ensures (n * MICRO) / MICRO == n
  {
  }
}

/** The totals of ping/bsdping.c in every run, honest or not: what `nreceived` and
    `ntransmitted` differ by. */
module PingTotals {
  import opened PingSpec

  /** Event `i` is a reply to the number of request `j`, before that number is used again. */
  predicate Answers(run: seq<Event>, ident: int, i: nat, j: nat, k: nat)
    requires j < i < |run|
  {
    IsRequest(run, j, k) && IsReply(run, ident, i, k) && forall m :: j < m < i ==> !IsRequest(run, m, k)
  }

  /** A request to number `k` that nothing answers. */
  predicate IsUnanswered(run: seq<Event>, ident: int, j: nat, k: nat)
    requires j < |run|
  {
    IsRequest(run, j, k) && forall i :: j < i < |run| ==> !Answers(run, ident, i, j, k)
  }

  /** The number that event `j` would carry as a request. */
  function NumberAt(run: seq<Event>, j: nat): nat
    requires j < |run|
  {
    Slot(Requests(run[..j]))
  }

  /** The requests that nothing answers. */
  function Unanswered(run: seq<Event>, ident: int): set<int> {
    set j | 0 <= j < |run| && IsUnanswered(run, ident, j, NumberAt(run, j))
  }

  /** A reply to `k` came before any request to it. */
  predicate IsStray(run: seq<Event>, ident: int, k: nat) {
    exists i :: 0 <= i < |run| && IsReply(run, ident, i, k) && forall j :: 0 <= j < i ==> !IsRequest(run, j, k)
  }

  /** The numbers replied to before they were ever sent. */
  function Strays(run: seq<Event>, ident: int): set<int> {
    set k | 0 <= k < MX_DUP_CK && IsStray(run, ident, k)
  }

  predicate Requested(run: seq<Event>, k: nat) {
    exists j :: 0 <= j < |run| && IsRequest(run, j, k)
  }

  // ---------------------------------------------------------------------
  // One more event
  // ---------------------------------------------------------------------

  lemma SameBefore(run: seq<Event>, ident: int, e: Event, j: nat, k: nat)
    requires j < |run|
    ensures IsRequest(run + [e], j, k) == IsRequest(run, j, k)
    ensures IsReply(run + [e], ident, j, k) == IsReply(run, ident, j, k)
    ensures NumberAt(run + [e], j) == NumberAt(run, j)
  {
    assert (run + [e])[..j] == run[..j];
  }

  /** The last event answers request `j`. */
  lemma UnansweredSnoc(run: seq<Event>, ident: int, e: Event, j: nat, k: nat)
    requires j < |run|
    ensures IsUnanswered(run + [e], ident, j, k) <==>
      IsUnanswered(run, ident, j, k) && !Answers(run + [e], ident, |run|, j, k)
  {
    hide IsRequest, IsReply;
    var more := run + [e];
    forall m | 0 <= m < |run|
      ensures IsRequest(more, m, k) == IsRequest(run, m, k) && IsReply(more, ident, m, k) == IsReply(run, ident, m, k)
    {
      SameBefore(run, ident, e, m, k);
    }
    forall i | j < i < |run| ensures Answers(more, ident, i, j, k) == Answers(run, ident, i, j, k) {
    }
  }

  lemma LastEvent(run: seq<Event>, ident: int, e: Event, k: nat)
    ensures var more, n := run + [e], |run|;
      && IsRequest(more, n, k) == (e.Send? && Slot(Requests(run)) == k)
      && IsReply(more, ident, n, k) == (e.Receive? && Matches(e.p, ident) && Slot(e.p.number) == k)
      && NumberAt(more, n) == Slot(Requests(run))
      && IsUnanswered(more, ident, n, NumberAt(more, n)) == e.Send?
  {
    assert (run + [e])[..|run|] == run;
  }

  /** A request adds itself to the unanswered ones. */
  lemma UnansweredSend(run: seq<Event>, ident: int)
    ensures |Unanswered(run + [Send], ident)| == |Unanswered(run, ident)| + 1
  {
    hide IsRequest, IsReply, IsUnanswered, Slot;
    var more, n := run + [Send], |run|;
    LastEvent(run, ident, Send, 0);
    forall j | 0 <= j < n
      ensures IsUnanswered(more, ident, j, NumberAt(more, j)) == IsUnanswered(run, ident, j, NumberAt(run, j))
    {
      SameBefore(run, ident, Send, j, 0);
      UnansweredSnoc(run, ident, Send, j, NumberAt(run, j));
      LastEvent(run, ident, Send, NumberAt(run, j));
    }
    assert Unanswered(more, ident) == Unanswered(run, ident) + {n};
  }

  /** Any other event leaves those it does not answer. */
  lemma UnansweredReceive(run: seq<Event>, ident: int, p: Packet, j: nat)
    requires j < |run|
    ensures var more := run + [Receive(p)];
      j in Unanswered(more, ident) <==>
        j in Unanswered(run, ident) && !Answers(more, ident, |run|, j, NumberAt(run, j))
    ensures |run| !in Unanswered(run + [Receive(p)], ident)
  {
    hide IsRequest, IsReply, IsUnanswered, Slot, Answers;
    SameBefore(run, ident, Receive(p), j, 0);
    UnansweredSnoc(run, ident, Receive(p), j, NumberAt(run, j));
    LastEvent(run, ident, Receive(p), 0);
  }

  lemma NothingUnanswered(run: seq<Event>, ident: int, p: Packet)
    ensures |run| !in Unanswered(run + [Receive(p)], ident)
  {
    hide IsRequest, IsReply, IsUnanswered, Slot;
    LastEvent(run, ident, Receive(p), 0);
  }

  /** The last request to `k`. */
  function LastRequest(run: seq<Event>, k: nat, n: nat): (j: nat)
    requires n <= |run| && exists j :: 0 <= j < n && IsRequest(run, j, k)
    ensures j < n && IsRequest(run, j, k) && forall m :: j < m < n ==> !IsRequest(run, m, k)
    decreases n
  {
    if IsRequest(run, n - 1, k) then n - 1 else LastRequest(run, k, n - 1)
  }

  lemma RequestNumber(run: seq<Event>, j: nat, k: nat)
    requires j < |run| && IsRequest(run, j, k)
    ensures NumberAt(run, j) == k
  {
  }

  /** A reply to a number already sent answers the last request to it, unless that has
      been answered before. */
  lemma UnansweredReply(run: seq<Event>, ident: int, p: Packet, k: nat)
    requires Matches(p, ident) && Slot(p.number) == k && Requested(run, k)
    ensures |Unanswered(run + [Receive(p)], ident)| ==
      |Unanswered(run, ident)| - if RepliedSince(run, ident, k) then 0 else 1
  {
    hide IsRequest, IsReply, Slot, Matches, Requests;
    var more, n, last := run + [Receive(p)], |run|, LastRequest(run, k, |run|);
    RequestNumber(run, last, k);
    NothingUnanswered(run, ident, p);
    forall j | 0 <= j < n ensures j in Unanswered(more, ident) <==> j in Unanswered(run, ident) && j != last {
      UnansweredReceive(run, ident, p, j);
      ReplyAnswers(run, ident, p, k, j);
    }
    assert Unanswered(more, ident) == Unanswered(run, ident) - {last};
    LastUnanswered(run, ident, k);
  }

  lemma ReplyAnswers(run: seq<Event>, ident: int, p: Packet, k: nat, j: nat)
    requires Matches(p, ident) && Slot(p.number) == k && Requested(run, k) && j < |run|
    ensures j in Unanswered(run, ident) ==>
      (Answers(run + [Receive(p)], ident, |run|, j, NumberAt(run, j)) <==> j == LastRequest(run, k, |run|))
  {
    hide IsReply, Slot, Matches, Requests;
    var more, n, last := run + [Receive(p)], |run|, LastRequest(run, k, |run|);
    LastEvent(run, ident, Receive(p), NumberAt(run, j));
    forall m | 0 <= m < n ensures IsRequest(more, m, k) == IsRequest(run, m, k) {
      SameBefore(run, ident, Receive(p), m, k);
    }
    SameBefore(run, ident, Receive(p), j, NumberAt(run, j));
    if Answers(more, ident, n, j, NumberAt(run, j)) {
      assert NumberAt(run, j) == k;
      assert IsRequest(run, j, k);
    }
  }

  lemma LastUnanswered(run: seq<Event>, ident: int, k: nat)
    requires Requested(run, k)
    ensures LastRequest(run, k, |run|) in Unanswered(run, ident) <==> !RepliedSince(run, ident, k)
  {
    hide IsReply, Slot, IsRequest;
    var last := LastRequest(run, k, |run|);
    RequestNumber(run, last, k);
    if RepliedSince(run, ident, k) {
      var i :| 0 <= i < |run| && IsReply(run, ident, i, k) && forall j :: i < j < |run| ==> !IsRequest(run, j, k);
      NotBoth(run, ident, i, k);
      assert last < i;
      assert Answers(run, ident, i, last, k);
    } else {
      assert forall i :: last < i < |run| ==> !IsReply(run, ident, i, k);
    }
  }

  lemma NotBoth(run: seq<Event>, ident: int, i: nat, k: nat)
    requires i < |run| && IsReply(run, ident, i, k)
    ensures !IsRequest(run, i, k)
  {
  }

  /** A packet that answers no number sent leaves the requests as they are. */
  lemma UnansweredOther(run: seq<Event>, ident: int, p: Packet)
    requires !Matches(p, ident) || !Requested(run, Slot(p.number))
    ensures Unanswered(run + [Receive(p)], ident) == Unanswered(run, ident)
  {
    hide IsRequest, IsReply, Slot, Matches, Requests, IsUnanswered;
    var more, n := run + [Receive(p)], |run|;
    NothingUnanswered(run, ident, p);
    forall j | 0 <= j < n ensures j in Unanswered(more, ident) <==> j in Unanswered(run, ident) {
      var k := NumberAt(run, j);
      UnansweredReceive(run, ident, p, j);
      LastEvent(run, ident, Receive(p), k);
      SameBefore(run, ident, Receive(p), j, k);
    }
  }

  /** When a number becomes stray. */
  lemma StraySnoc(run: seq<Event>, ident: int, e: Event, k: nat)
    ensures IsStray(run + [e], ident, k) <==>
      IsStray(run, ident, k) ||
      (e.Receive? && Matches(e.p, ident) && Slot(e.p.number) == k && !Requested(run, k))
  {
    hide IsRequest, IsReply, Slot, Matches, Requests;
    var more, n := run + [e], |run|;
    LastEvent(run, ident, e, k);
    forall m | 0 <= m < n
      ensures IsRequest(more, m, k) == IsRequest(run, m, k) && IsReply(more, ident, m, k) == IsReply(run, ident, m, k)
    {
      SameBefore(run, ident, e, m, k);
    }
    if IsStray(run, ident, k) {
      var i :| 0 <= i < n && IsReply(run, ident, i, k) && forall j :: 0 <= j < i ==> !IsRequest(run, j, k);
      assert IsReply(more, ident, i, k);
    }
    if IsReply(more, ident, n, k) && !Requested(run, k) {
      assert IsStray(more, ident, k);
    }
    if IsStray(more, ident, k) {
      var i :| 0 <= i <= n && IsReply(more, ident, i, k) && forall j :: 0 <= j < i ==> !IsRequest(more, j, k);
      if i < n {
        assert IsReply(run, ident, i, k);
      }
    }
  }

  /** Until the first request to a number a reply has come exactly if it is stray. */
  lemma StrayMeansReplied(run: seq<Event>, ident: int, k: nat)
    requires !Requested(run, k)
    ensures IsStray(run, ident, k) <==> RepliedSince(run, ident, k)
  {
    hide IsRequest, IsReply;
  }

  lemma StraysSnoc(run: seq<Event>, ident: int, e: Event)
    ensures |Strays(run + [e], ident)| == |Strays(run, ident)| +
      if e.Receive? && Matches(e.p, ident) && !Requested(run, Slot(e.p.number))
         && !RepliedSince(run, ident, Slot(e.p.number)) then 1 else 0
  {
    hide IsStray, Matches, Requested, RepliedSince, Slot;
    forall k | 0 <= k < MX_DUP_CK
      ensures IsStray(run + [e], ident, k) <==>
        IsStray(run, ident, k) ||
        (e.Receive? && Matches(e.p, ident) && Slot(e.p.number) == k && !Requested(run, k))
    {
      StraySnoc(run, ident, e, k);
    }
    if e.Receive? && Matches(e.p, ident) && !Requested(run, Slot(e.p.number)) {
      var k := Slot(e.p.number);
      StrayMeansReplied(run, ident, k);
      assert Strays(run + [e], ident) == Strays(run, ident) + {k};
    } else {
      assert Strays(run + [e], ident) == Strays(run, ident);
    }
  }

  // ---------------------------------------------------------------------
  // The balance
  // ---------------------------------------------------------------------

  lemma UnansweredSnocCount(run: seq<Event>, ident: int, e: Event)
    ensures |Unanswered(run + [e], ident)| == |Unanswered(run, ident)| +
      if e.Send? then 1
      else if Matches(e.p, ident) && Requested(run, Slot(e.p.number)) && !RepliedSince(run, ident, Slot(e.p.number))
      then -1 else 0
  {
    hide Matches, Requested, RepliedSince, Slot, Unanswered;
    match e
    case Send => UnansweredSend(run, ident);
    case Receive(p) =>
      if Matches(p, ident) && Requested(run, Slot(p.number)) {
        UnansweredReply(run, ident, p, Slot(p.number));
      } else {
        UnansweredOther(run, ident, p);
      }
  }

  /** In every run the replies counted and the requests that nothing answers make up the
      requests sent and the numbers replied to before they were sent. */
  lemma {:induction false} TotalsBalance(s: Ping, ident: int, run: seq<Event>)
    requires Initial(s)
    ensures var t := After(s, ident, run);
      t.nreceived + |Unanswered(run, ident)| == t.ntransmitted + |Strays(run, ident)|
    decreases |run|
  {
    hide Tst, Set, Clr, Matches, RepliedSince, Requested, Unanswered, Strays, Slot;
    if run == [] {
      NoneYet(ident);
    } else {
      var before, e := run[..|run| - 1], run[|run| - 1];
      assert run == before + [e];
      TotalsBalance(s, ident, before);
      UnansweredSnocCount(before, ident, e);
      StraysSnoc(before, ident, e);
      if e.Receive? {
        BitMeansReplied(s, ident, before, Slot(e.p.number));
      }
    }
  }

  lemma NoneYet(ident: int)
    ensures Unanswered([], ident) == {} && Strays([], ident) == {}
  {
  }

  /** So the totals are in order if and only if no more numbers were replied to before they
      were sent than requests went unanswered. */
  lemma TotalsExactly(s: Ping, ident: int, run: seq<Event>)
    requires Initial(s)
    ensures var t := After(s, ident, run);
      t.nreceived <= t.ntransmitted <==> |Strays(run, ident)| <= |Unanswered(run, ident)|
  {
    hide After, Unanswered, Strays;
    TotalsBalance(s, ident, run);
  }

  // ---------------------------------------------------------------------
  // Honest runs
  // ---------------------------------------------------------------------

  lemma {:induction false} AfterCons(s: Ping, ident: int, run: seq<Event>)
    requires Shaped(s) && run != []
    ensures After(s, ident, run) == After(Step(s, ident, run[0]), ident, run[1..])
    decreases |run|
  {
    hide Step;
    var n := |run| - 1;
    if n > 0 {
      AfterCons(s, ident, run[..n]);
      assert run[..n][1..] == run[1..][..n - 1] && run[1..][n - 1] == run[n];
    } else {
      assert run[..0] == [] && run[1..] == [];
    }
  }

  lemma {:induction false} HonestSnoc(s: Ping, ident: int, run: seq<Event>, e: Event)
    requires Shaped(s)
    ensures HonestRun(s, ident, run + [e]) <==> HonestRun(s, ident, run) && Honest(After(s, ident, run), ident, e)
    decreases |run|
  {
    hide Step, Honest, After;
    var more := run + [e];
    if run == [] {
      assert more[1..] == [] && more[0] == e;
      AfterNothing(s, ident);
    } else {
      HonestSnoc(Step(s, ident, run[0]), ident, run[1..], e);
      assert more[1..] == run[1..] + [e] && more[0] == run[0];
      AfterCons(s, ident, run);
    }
  }

  lemma AfterNothing(s: Ping, ident: int)
    requires Shaped(s)
    ensures After(s, ident, []) == s
  {
  }

  lemma RequestedSnoc(run: seq<Event>, ident: int, e: Event, k: nat)
    ensures Requested(run + [e], k) <==> Requested(run, k) || (e.Send? && Slot(Requests(run)) == k)
  {
    hide IsRequest, Slot, Requests;
    var more, n := run + [e], |run|;
    LastEvent(run, ident, e, k);
    forall m | 0 <= m < n ensures IsRequest(more, m, k) == IsRequest(run, m, k) {
      SameBefore(run, ident, e, m, k);
    }
    if Requested(run, k) {
      var j :| 0 <= j < n && IsRequest(run, j, k);
      assert IsRequest(more, j, k);
    }
    if IsRequest(more, n, k) {
      assert Requested(more, k);
    }
  }

  lemma {:induction false} SentMeansRequested(s: Ping, ident: int, run: seq<Event>, k: nat)
    requires Initial(s) && k < MX_DUP_CK
    ensures After(s, ident, run).sends[k] > 0 <==> Requested(run, k)
    decreases |run|
  {
    hide Tst, Set, Clr, Matches, Slot, Requested;
    if run == [] {
      NeverRequested(k);
    } else {
      var before, e := run[..|run| - 1], run[|run| - 1];
      assert run == before + [e];
      SentMeansRequested(s, ident, before, k);
      AfterCounts(s, ident, before);
      RequestedSnoc(before, ident, e, k);
    }
  }

  lemma NeverRequested(k: nat)
    ensures !Requested([], k)
  {
  }

  /** The honest runs are those without strays. */
  lemma {:induction false} HonestMeansNoStrays(s: Ping, ident: int, run: seq<Event>)
    requires Initial(s)
    ensures HonestRun(s, ident, run) <==> Strays(run, ident) == {}
    decreases |run|
  {
    hide Initial, After, HonestRun, Strays, Slot, Matches, RepliedSince, Requested, IsStray;
    if run == [] {
      NoneYet(ident);
      NothingDishonest(s, ident);
    } else {
      var before, e := run[..|run| - 1], run[|run| - 1];
      assert run == before + [e];
      InitialShaped(s);
      HonestMeansNoStrays(s, ident, before);
      HonestSnoc(s, ident, before, e);
      StraysSnoc(before, ident, e);
      if e.Receive? {
        var k := Slot(e.p.number);
        SentMeansRequested(s, ident, before, k);
        if Strays(before, ident) == {} && !Requested(before, k) {
          NoStray(before, ident, k);
        }
      }
    }
  }

  lemma InitialShaped(s: Ping)
    requires Initial(s)
    ensures Shaped(s)
  {
  }

  lemma NothingDishonest(s: Ping, ident: int)
    requires Initial(s)
    ensures Shaped(s) && HonestRun(s, ident, [])
  {
  }

  lemma NoStray(run: seq<Event>, ident: int, k: nat)
    requires k < MX_DUP_CK && Strays(run, ident) == {} && !Requested(run, k)
    ensures !RepliedSince(run, ident, k)
  {
    hide IsStray, Requested, RepliedSince;
    StrayMeansReplied(run, ident, k);
    assert k !in Strays(run, ident);
  }

  /** A packet is counted, once, exactly if it is long enough for its IP header and eight
      bytes, an echo reply, and to this process; as received if no reply with its number
      has come since the last request with it, else as a repeat. */
  lemma CountedExactly(s: Ping, ident: int, run: seq<Event>, p: Packet)
    requires Initial(s)
    ensures var t, u := After(s, ident, run), After(s, ident, run + [Receive(p)]);
      var mine := p.length >= 4 * p.ipHl + 8 && p.icmpType == 0 && p.id == ident;
      var first := !RepliedSince(run, ident, p.number % 65536);
      && u.ntransmitted == t.ntransmitted
      && u.nreceived == t.nreceived + (if mine && first then 1 else 0)
      && u.nrepeats == t.nrepeats + (if mine && !first then 1 else 0)
  {
    hide Tst, Set, Clr, RepliedSince, Initial;
    var more := run + [Receive(p)];
    assert more[..|run|] == run && more[|run|] == Receive(p);
    BitMeansReplied(s, ident, run, p.number % 65536);
  }

  lemma {:induction false} AfterAccounts(s: Ping, ident: int, run: seq<Event>)
    requires Initial(s)
    ensures var t := After(s, ident, run); t.nreceived >= 0 && t.nreceived + t.nrepeats == t.matching
    decreases |run|
  {
    hide Tst, Set, Clr;
    if run != [] {
      AfterAccounts(s, ident, run[..|run| - 1]);
    }
  }
}

/** The accounting of ping/bsdping.c: requests numbered modulo 65536, a table of bits that
    tells first replies from repeats, and three counters. */
module PingSpec {

  const MX_DUP_CK: nat := 65536
  const ICMP_MINLEN: int := 8
  const ICMP_ECHOREPLY: int := 0

  // ---------------------------------------------------------------------
  // The table of bits
  // ---------------------------------------------------------------------

  type Table = t: seq<bv8> | |t| == MX_DUP_CK / 8 witness seq(MX_DUP_CK / 8, _ => 0)

  /** The index that `A(bit)` computes. */
  function Byte(bit: nat): nat {
    bit / 8
  }

  predicate SameBit(j: nat, k: nat) {
    j % 8 == k % 8
  }

  /** `B(bit)`. */
  function Mask(k: nat): bv8 {
    match k % 8
    case 0 => 0x01
    case 1 => 0x02
    case 2 => 0x04
    case 3 => 0x08
    case 4 => 0x10
    case 5 => 0x20
    case 6 => 0x40
    case _ => 0x80
  }

  predicate Has(x: bv8, bit: nat) {
    x & Mask(bit) != 0
  }

  function With(x: bv8, bit: nat): bv8 {
    x | Mask(bit)
  }

  function Without(x: bv8, bit: nat): bv8 {
    x & !Mask(bit)
  }

  predicate Tst(t: Table, bit: nat)
    requires bit < MX_DUP_CK
  {
    Has(t[Byte(bit)], bit)
  }

  function Set(t: Table, bit: nat): Table
    requires bit < MX_DUP_CK
  {
    t[Byte(bit) := With(t[Byte(bit)], bit)]
  }

  function Clr(t: Table, bit: nat): Table
    requires bit < MX_DUP_CK
  {
    t[Byte(bit) := Without(t[Byte(bit)], bit)]
  }

  lemma MaskBits(x: bv8, j: nat, k: nat)
    ensures Has(With(x, j), k) <==> SameBit(j, k) || Has(x, k)
    ensures Has(Without(x, j), k) <==> !SameBit(j, k) && Has(x, k)
  {
  }

  lemma Places(j: nat, k: nat)
    requires j < MX_DUP_CK && k < MX_DUP_CK
    ensures Byte(j) == Byte(k) && SameBit(j, k) <==> j == k
    ensures Byte(j) < MX_DUP_CK / 8 && Byte(k) < MX_DUP_CK / 8
  {
  }

  /** The macros keep an exact set of the numbers below 65536. */
  lemma BitsAreASet(t: Table, bit: nat, other: nat)
    requires bit < MX_DUP_CK && other < MX_DUP_CK
    ensures Tst(Set(t, bit), other) <==> other == bit || Tst(t, other)
    ensures Tst(Clr(t, bit), other) <==> other != bit && Tst(t, other)
  {
    hide Has, With, Without, SameBit, Byte;
    Places(bit, other);
    MaskBits(t[Byte(bit)], bit, other);
  }

  // ---------------------------------------------------------------------
  // The counters
  // ---------------------------------------------------------------------

  /** A received packet: its length, the header length field, and the ICMP fields. */
  datatype Packet = Packet(length: int, ipHl: nat, icmpType: int, id: int, number: nat)

  /** `sends` and `firsts` count, number by number, the requests and the replies that were
      not repeats; `matching` counts the replies to this process. */
  datatype Ping = Ping(table: Table, ntransmitted: nat, nreceived: int, nrepeats: int,
                       sends: seq<nat>, firsts: seq<nat>, matching: nat)

  datatype Event = Send | Receive(p: Packet)

  predicate Shaped(s: Ping) {
    |s.sends| == MX_DUP_CK && |s.firsts| == MX_DUP_CK
  }

  /** Lines 471-483: an echo reply to this process, and long enough. */
  predicate Matches(p: Packet, ident: int) {
    p.length >= 4 * p.ipHl + ICMP_MINLEN && p.icmpType == ICMP_ECHOREPLY && p.id == ident
  }

  /** `icmp_seq` has sixteen bits. */
  function Slot(number: nat): (k: nat)
    ensures k < MX_DUP_CK
  {
    number % 65536 % MX_DUP_CK
  }

  function Step(s: Ping, ident: int, e: Event): (t: Ping)
    requires Shaped(s)
    ensures Shaped(t)
  {
    match e
    case Send =>
      var k := Slot(s.ntransmitted);
      s.(ntransmitted := s.ntransmitted + 1, table := Clr(s.table, k), sends := s.sends[k := s.sends[k] + 1])
    case Receive(p) =>
      if !Matches(p, ident) then s
      else
        var k := Slot(p.number);
        if Tst(s.table, k) then s.(nrepeats := s.nrepeats + 1, matching := s.matching + 1)
        else
          s.(nreceived := s.nreceived + 1, matching := s.matching + 1, table := Set(s.table, k),
             firsts := s.firsts[k := s.firsts[k] + 1])
  }

  predicate Initial(s: Ping) {
    && Shaped(s) && (forall k :: 0 <= k < |s.table| ==> s.table[k] == 0)
    && s.ntransmitted == s.nreceived == s.nrepeats == s.matching == 0
    && (forall k :: 0 <= k < MX_DUP_CK ==> s.sends[k] == s.firsts[k] == 0)
  }

  /** The state at the start of the program. */
  function Start(): (s: Ping)
    ensures Initial(s)
  {
    Ping(seq(MX_DUP_CK / 8, _ => 0), 0, 0, 0, seq(MX_DUP_CK, _ => 0), seq(MX_DUP_CK, _ => 0), 0)
  }

  /** Replies come only to numbers that have been sent. */
  predicate Honest(s: Ping, ident: int, e: Event)
    requires Shaped(s)
  {
    e.Receive? && Matches(e.p, ident) ==> s.sends[Slot(e.p.number)] > 0
  }

  predicate HonestRun(s: Ping, ident: int, run: seq<Event>)
    requires Shaped(s)
    decreases |run|
  {
    run == [] || (Honest(s, ident, run[0]) && HonestRun(Step(s, ident, run[0]), ident, run[1..]))
  }

  ghost predicate Reaches(s: Ping, ident: int, run: seq<Event>, t: Ping)
    requires Shaped(s)
    decreases |run|
  {
    if run == [] then t == s
    else Honest(s, ident, run[0]) && Reaches(Step(s, ident, run[0]), ident, run[1..], t)
  }

  function Sum(a: seq<nat>): nat {
    if a == [] then 0 else a[0] + Sum(a[1..])
  }

  lemma {:induction false} SumUpdate(a: seq<nat>, k: nat, v: nat)
    requires k < |a|
    ensures Sum(a[k := v]) == Sum(a) - a[k] + v
  {
    if k == 0 {
      assert a[0 := v][1..] == a[1..];
    } else {
      SumUpdate(a[1..], k - 1, v);
      assert a[k := v][1..] == a[1..][k - 1 := v];
    }
  }

  lemma {:induction false} SumMonotone(a: seq<nat>, b: seq<nat>)
    requires |a| == |b| && forall k :: 0 <= k < |a| ==> a[k] <= b[k]
    ensures Sum(a) <= Sum(b)
  {
    if a != [] {
      SumMonotone(a[1..], b[1..]);
    }
  }

  lemma {:induction false} SumZero(a: seq<nat>)
    requires forall k :: 0 <= k < |a| ==> a[k] == 0
    ensures Sum(a) == 0
  {
    if a != [] {
      SumZero(a[1..]);
    }
  }

  /** A number's first replies never exceed its requests, and are fewer while the next
      reply to it would still count as first; the bit of a number never sent is clear. */
  predicate SlotOk(s: Ping, k: nat)
    requires Shaped(s) && k < MX_DUP_CK
  {
    if Tst(s.table, k) then 0 < s.sends[k] && s.firsts[k] <= s.sends[k]
    else s.firsts[k] < s.sends[k] || s.firsts[k] == s.sends[k] == 0
  }

  predicate Slots(s: Ping)
    requires Shaped(s)
  {
    forall k :: 0 <= k < MX_DUP_CK ==> SlotOk(s, k)
  }

  predicate Inv(s: Ping) {
    && Shaped(s) && Slots(s) && s.nreceived == Sum(s.firsts) && s.ntransmitted == Sum(s.sends)
    && s.nreceived + s.nrepeats == s.matching && s.nrepeats >= 0
  }

  lemma InitialInv(s: Ping)
    requires Initial(s)
    ensures Inv(s)
  {
    SumZero(s.firsts);
    SumZero(s.sends);
    forall k | 0 <= k < MX_DUP_CK ensures !Tst(s.table, k) {
      NoBits(k);
    }
  }

  lemma NoBits(k: nat)
    ensures !Has(0, k)
  {
  }

  lemma StepKeepsSlot(s: Ping, ident: int, e: Event, k: nat)
    requires Shaped(s) && Slots(s) && Honest(s, ident, e) && k < MX_DUP_CK
    ensures SlotOk(Step(s, ident, e), k)
  {
    hide Tst, Set, Clr, Slot;
    assert SlotOk(s, k);
    match e
    case Send => BitsAreASet(s.table, Slot(s.ntransmitted), k);
    case Receive(p) =>
      if Matches(p, ident) {
        BitsAreASet(s.table, Slot(p.number), k);
      }
  }

  lemma StepKeepsInv(s: Ping, ident: int, e: Event)
    requires Inv(s) && Honest(s, ident, e)
    ensures Inv(Step(s, ident, e))
  {
    hide Tst, Set, Clr, SlotOk, Slot, Sum;
    var t := Step(s, ident, e);
    forall k | 0 <= k < MX_DUP_CK ensures SlotOk(t, k) {
      StepKeepsSlot(s, ident, e, k);
    }
    match e
    case Send =>
      var k := Slot(s.ntransmitted);
      SumUpdate(s.sends, k, s.sends[k] + 1);
    case Receive(p) =>
      var k := Slot(p.number);
      SumUpdate(s.firsts, k, s.firsts[k] + 1);
  }

  lemma {:induction false} RunKeepsInv(s: Ping, ident: int, run: seq<Event>, t: Ping)
    requires Inv(s) && Reaches(s, ident, run, t)
    ensures Inv(t)
    decreases |run|
  {
    hide Slots, Sum, Step, Honest;
    if run != [] {
      StepKeepsInv(s, ident, run[0]);
      RunKeepsInv(Step(s, ident, run[0]), ident, run[1..], t);
    }
  }

  lemma NeverMore(s: Ping)
    requires Inv(s)
    ensures 0 <= s.nreceived <= s.ntransmitted && forall k :: 0 <= k < MX_DUP_CK ==> s.firsts[k] <= s.sends[k]
  {
    hide Tst, Sum;
    forall k | 0 <= k < MX_DUP_CK ensures s.firsts[k] <= s.sends[k] {
      assert SlotOk(s, k);
    }
    SumMonotone(s.firsts, s.sends);
  }

  /** However often the sequence numbers wrap around, no more replies are counted than
      requests were sent, for each number and in all; and every matching reply is counted
      once, as received or as a repeat. */
  lemma NeverMoreThanSent(s: Ping, ident: int, run: seq<Event>, t: Ping)
    requires Initial(s) && Reaches(s, ident, run, t)
    ensures 0 <= t.nreceived <= t.ntransmitted && t.nreceived + t.nrepeats == t.matching
    ensures |t.firsts| == |t.sends| && forall k :: 0 <= k < |t.firsts| ==> t.firsts[k] <= t.sends[k]
  {
    hide Slots, Step, Honest, Sum;
    InitialInv(s);
    RunKeepsInv(s, ident, run, t);
    NeverMore(t);
  }

  // ---------------------------------------------------------------------
  // Exactly when
  // ---------------------------------------------------------------------

  /** No number has more first replies than requests. */
  predicate WithinSends(s: Ping)
    requires Shaped(s)
  {
    forall k :: 0 <= k < MX_DUP_CK ==> s.firsts[k] <= s.sends[k]
  }

  /** ...in any state of a run. */
  predicate AlwaysWithin(s: Ping, ident: int, run: seq<Event>)
    requires Shaped(s)
    decreases |run|
  {
    WithinSends(s) && (run == [] || AlwaysWithin(Step(s, ident, run[0]), ident, run[1..]))
  }

  /** The first reply to a number never sent is counted at once. */
  lemma StrayBreaks(s: Ping, ident: int, e: Event)
    requires Inv(s) && !Honest(s, ident, e)
    ensures !WithinSends(Step(s, ident, e)) && Step(s, ident, e).nreceived == s.nreceived + 1
  {
    hide Tst, Set, Sum;
    var k := Slot(e.p.number);
    assert SlotOk(s, k);
    var t := Step(s, ident, e);
    assert t.firsts[k] == 1 && t.sends[k] == 0;
  }

  lemma {:induction false} HonestIsWithin(s: Ping, ident: int, run: seq<Event>)
    requires Inv(s)
    ensures HonestRun(s, ident, run) <==> AlwaysWithin(s, ident, run)
    decreases |run|
  {
    hide Slots, Sum, Step, Honest, WithinSends;
    InvIsWithin(s);
    if run != [] {
      var t := Step(s, ident, run[0]);
      if Honest(s, ident, run[0]) {
        StepKeepsInv(s, ident, run[0]);
        HonestIsWithin(t, ident, run[1..]);
      } else {
        StrayBreaks(s, ident, run[0]);
      }
    }
  }

  lemma InvIsWithin(s: Ping)
    requires Inv(s)
    ensures WithinSends(s)
  {
    NeverMore(s);
  }

  /** From the start of the program, first replies stay within the requests, number by
      number and in every state, if and only if no reply comes to a number that has not
      been sent. */
  lemma HonestExactly(s: Ping, ident: int, run: seq<Event>)
    requires Initial(s)
    ensures HonestRun(s, ident, run) <==> AlwaysWithin(s, ident, run)
  {
    InitialInv(s);
    HonestIsWithin(s, ident, run);
  }

  /** The totals: after an honest run the next event keeps `nreceived` within
      `ntransmitted` if and only if it is honest too or the counters still differ. */
  lemma TotalExactly(s: Ping, ident: int, run: seq<Event>, t: Ping, e: Event)
    requires Initial(s) && Reaches(s, ident, run, t)
    ensures Shaped(t)
    ensures Step(t, ident, e).nreceived <= Step(t, ident, e).ntransmitted <==>
      Honest(t, ident, e) || t.nreceived < t.ntransmitted
  {
    hide Slots, Sum, Honest, Reaches, Initial, Tst, Set, Clr;
    InitialInv(s);
    RunKeepsInv(s, ident, run, t);
    NeverMore(t);
    if Honest(t, ident, e) {
      StepKeepsInv(t, ident, e);
      NeverMore(Step(t, ident, e));
    } else {
      StrayBreaks(t, ident, e);
      StrayIsReceive(t, ident, e);
    }
  }

  lemma StrayIsReceive(s: Ping, ident: int, e: Event)
    requires Shaped(s) && !Honest(s, ident, e)
    ensures e.Receive? && Step(s, ident, e).ntransmitted == s.ntransmitted
  {
  }

  /** A reply to a number never sent is counted all the same. */
  lemma StrayReplyCounts(s: Ping, ident: int)
    requires Initial(s)
    ensures var t := Step(s, ident, Receive(Packet(28, 5, ICMP_ECHOREPLY, ident, 0)));
      t.nreceived == 1 && t.ntransmitted == 0
  {
    NoBits(0);
  }

  // ---------------------------------------------------------------------
  // What a bit means
  // ---------------------------------------------------------------------

  /** The state after a run, honest or not. */
  function After(s: Ping, ident: int, run: seq<Event>): (t: Ping)
    requires Shaped(s)
    ensures Shaped(t)
  {
    if run == [] then s else Step(After(s, ident, run[..|run| - 1]), ident, run[|run| - 1])
  }

  /** The requests in a run. */
  function Requests(run: seq<Event>): nat {
    if run == [] then 0 else Requests(run[..|run| - 1]) + if run[|run| - 1].Send? then 1 else 0
  }

  /** Event `j` of a run from the start is a request that carries number `k`. */
  predicate IsRequest(run: seq<Event>, j: nat, k: nat)
    requires j < |run|
  {
    run[j].Send? && Slot(Requests(run[..j])) == k
  }

  /** Event `i` is a reply to number `k`. */
  predicate IsReply(run: seq<Event>, ident: int, i: nat, k: nat)
    requires i < |run|
  {
    run[i].Receive? && Matches(run[i].p, ident) && Slot(run[i].p.number) == k
  }

  /** A reply to `k` has come, and no request with that number has gone out since. */
  ghost predicate RepliedSince(run: seq<Event>, ident: int, k: nat) {
    exists i :: 0 <= i < |run| && IsReply(run, ident, i, k) && forall j :: i < j < |run| ==> !IsRequest(run, j, k)
  }

  lemma {:induction false} AfterCounts(s: Ping, ident: int, run: seq<Event>)
    requires Shaped(s) && s.ntransmitted == 0
    ensures After(s, ident, run).ntransmitted == Requests(run)
  {
    hide Tst, Set, Clr;
    if run != [] {
      AfterCounts(s, ident, run[..|run| - 1]);
    }
  }

  /** What one more event does to a bit. */
  lemma StepBit(s: Ping, ident: int, e: Event, k: nat)
    requires Shaped(s) && k < MX_DUP_CK
    ensures Tst(Step(s, ident, e).table, k) <==>
      if e.Send? && Slot(s.ntransmitted) == k then false
      else Tst(s.table, k) || (e.Receive? && Matches(e.p, ident) && Slot(e.p.number) == k)
  {
    hide Tst, Set, Clr, Slot;
    match e
    case Send => BitsAreASet(s.table, Slot(s.ntransmitted), k);
    case Receive(p) => BitsAreASet(s.table, Slot(p.number), k);
  }

  /** What one more event does to the history of a number. */
  lemma RepliedSnoc(run: seq<Event>, ident: int, e: Event, k: nat)
    ensures RepliedSince(run + [e], ident, k) <==>
      if e.Send? && Slot(Requests(run)) == k then false
      else RepliedSince(run, ident, k) || (e.Receive? && Matches(e.p, ident) && Slot(e.p.number) == k)
  {
    hide Slot, Matches, Requests;
    var more, n := run + [e], |run|;
    assert more[..n] == run;
    forall j | 0 <= j < n
      ensures IsRequest(more, j, k) == IsRequest(run, j, k) && IsReply(more, ident, j, k) == IsReply(run, ident, j, k)
    {
      assert more[..j] == run[..j];
    }
    if RepliedSince(run, ident, k) && !IsRequest(more, n, k) {
      var i :| 0 <= i < n && IsReply(run, ident, i, k) && forall j :: i < j < n ==> !IsRequest(run, j, k);
      assert IsReply(more, ident, i, k);
    }
    if IsReply(more, ident, n, k) {
      assert RepliedSince(more, ident, k);
    }
    if RepliedSince(more, ident, k) {
      var i :| 0 <= i < |more| && IsReply(more, ident, i, k) && forall j :: i < j < |more| ==> !IsRequest(more, j, k);
      if i < n {
        assert IsReply(run, ident, i, k) && !IsRequest(more, n, k);
        forall j | i < j < n ensures !IsRequest(run, j, k) {
          assert !IsRequest(more, j, k);
        }
      }
    }
  }

  /** In every run the bit of a number is set exactly when a reply to it has come since
      the last request with that number. */
  lemma {:induction false} BitMeansReplied(s: Ping, ident: int, run: seq<Event>, k: nat)
    requires Initial(s) && k < MX_DUP_CK
    ensures Tst(After(s, ident, run).table, k) <==> RepliedSince(run, ident, k)
    decreases |run|
  {
    hide Tst, Step, RepliedSince;
    if run == [] {
      NeverReplied(s, ident, k);
    } else {
      var before, e := run[..|run| - 1], run[|run| - 1];
      assert run == before + [e];
      BitMeansReplied(s, ident, before, k);
      AfterCounts(s, ident, before);
      StepBit(After(s, ident, before), ident, e, k);
      RepliedSnoc(before, ident, e, k);
    }
  }

  lemma NeverReplied(s: Ping, ident: int, k: nat)
    requires Initial(s) && k < MX_DUP_CK
    ensures !Tst(s.table, k) && !RepliedSince([], ident, k)
  {
    NoBits(k);
  }
}

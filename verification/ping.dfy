/** The global variables of ping/bsdping.c that account for packets, and the code of
    `pinger`, `onalrm` and `pr_pack` that changes them. */
module Pinging {
  import opened PingSpec
  import opened PingTotals

  lemma ShiftIsMask(bit: nat)
    ensures (1 as bv8) << (bit % 8) == Mask(bit)
  {
  }

  class Pinger {
    const rcvdTbl: array<bv8>
    const ident: int
    var ntransmitted: nat
    var nreceived: int
    var nrepeats: int
    ghost var sends: seq<nat>
    ghost var firsts: seq<nat>
    ghost var matching: nat

    ghost predicate Valid()
      reads this
    {
      rcvdTbl.Length == MX_DUP_CK / 8 && |sends| == MX_DUP_CK && |firsts| == MX_DUP_CK
    }

    ghost function State(): (s: Ping)
      requires Valid()
      reads this, rcvdTbl
      ensures Shaped(s)
    {
      Ping(rcvdTbl[..], ntransmitted, nreceived, nrepeats, sends, firsts, matching)
    }

    constructor (ident: int)
      ensures Valid() && State() == Start() && this.ident == ident && fresh(rcvdTbl)
    {
      this.ident := ident;
      rcvdTbl := new bv8[MX_DUP_CK / 8](_ => 0);
      ntransmitted, nreceived, nrepeats, matching := 0, 0, 0, 0;
      sends, firsts := seq(MX_DUP_CK, _ => 0), seq(MX_DUP_CK, _ => 0);
    }

    /** `SET(bit)`. */
    method SetBit(bit: nat)
      requires Valid() && bit < MX_DUP_CK
      modifies rcvdTbl
      ensures rcvdTbl[..] == Set(old(rcvdTbl[..]), bit)
    {
      ShiftIsMask(bit);
      rcvdTbl[bit / 8] := rcvdTbl[bit / 8] | ((1 as bv8) << (bit % 8));
    }

    /** `CLR(bit)`. */
    method ClearBit(bit: nat)
      requires Valid() && bit < MX_DUP_CK
      modifies rcvdTbl
      ensures rcvdTbl[..] == Clr(old(rcvdTbl[..]), bit)
    {
      ShiftIsMask(bit);
      rcvdTbl[bit / 8] := rcvdTbl[bit / 8] & !((1 as bv8) << (bit % 8));
    }

    /** `TST(bit)`. */
    method TestBit(bit: nat) returns (b: bool)
      requires Valid() && bit < MX_DUP_CK
      ensures b == Tst(rcvdTbl[..], bit)
    {
      ShiftIsMask(bit);
      b := rcvdTbl[bit / 8] & ((1 as bv8) << (bit % 8)) != 0;
    }

    /** `pinger`, as far as it counts: `icmp_seq` keeps sixteen bits of the counter. */
    method SendOne() returns (number: nat)
      requires Valid()
      modifies this, rcvdTbl
      ensures Valid() && State() == Step(old(State()), ident, Send) && number == old(ntransmitted) % 65536
    {
      hide Clr;
      number := ntransmitted % 65536;
      ntransmitted := ntransmitted + 1;
      ClearBit(number % MX_DUP_CK);
      sends := sends[number % MX_DUP_CK := sends[number % MX_DUP_CK] + 1];
    }

    /** `onalrm`: one more request, unless `npackets` is given and reached. */
    method OnAlarm(npackets: nat) returns (more: bool)
      requires Valid()
      modifies this, rcvdTbl
      ensures Valid() && more == (npackets == 0 || old(ntransmitted) < npackets)
      ensures State() == if more then Step(old(State()), ident, Send) else old(State())
    {
      more := npackets == 0 || ntransmitted < npackets;
      if more {
        var _ := SendOne();
      }
    }

    /** Lines 471-508 of `pr_pack`: first counted, then taken back if it is a repeat. */
    method PrPack(p: Packet) returns (dupflag: bool)
      requires Valid()
      modifies this, rcvdTbl
      ensures Valid() && State() == Step(old(State()), ident, Receive(p))
      ensures dupflag <==> nrepeats > old(nrepeats)
    {
      hide Set, Tst;
      dupflag := false;
      if p.length < 4 * p.ipHl + ICMP_MINLEN {
        return;
      }
      if p.icmpType == ICMP_ECHOREPLY {
        if p.id != ident {
          return;
        }
        nreceived := nreceived + 1;
        matching := matching + 1;
        var bit := p.number % 65536 % MX_DUP_CK;
        var seen := TestBit(bit);
        if seen {
          nrepeats := nrepeats + 1;
          nreceived := nreceived - 1;
          dupflag := true;
        } else {
          SetBit(bit);
          firsts := firsts[bit := firsts[bit] + 1];
          dupflag := false;
        }
      }
    }
  }

  /** Any run of requests and packets; if replies answer requests the totals are in order. */
  method PingUnder(ident: int, events: seq<Event>) returns (pinger: Pinger)
    ensures pinger.Valid() && pinger.State() == After(Start(), ident, events)
    ensures pinger.nreceived >= 0 && pinger.nreceived + pinger.nrepeats == pinger.matching
    ensures HonestRun(Start(), ident, events) ==> pinger.nreceived <= pinger.ntransmitted
  {
    hide Step, HonestRun, Initial, Strays, Unanswered;
    pinger := new Pinger(ident);
    for i := 0 to |events|
      invariant pinger.Valid() && pinger.ident == ident && fresh(pinger) && fresh(pinger.rcvdTbl)
      invariant pinger.State() == After(Start(), ident, events[..i])
    {
      assert events[..i + 1][..i] == events[..i];
      match events[i] {
        case Send => var _ := pinger.SendOne();
        case Receive(p) => var _ := pinger.PrPack(p);
      }
    }
    assert events[..|events|] == events;
    AfterAccounts(Start(), ident, events);
    TotalsExactly(Start(), ident, events);
    HonestMeansNoStrays(Start(), ident, events);
  }
}

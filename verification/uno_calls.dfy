/** Judging the calls of a round in tcpcliserv/final_server.c (lines 564-654): who wins,
    and what becomes of the game when the player caught has left in the same round. */
module UnoCalls {
  import opened Wrappers
  import opened UnoTurn
  import opened UnoSpec

  /** Nobody that the loop has still to compare is faster than `u`. */
  predicate MayWin(hn: Sizes, stamps: seq<int>, u: nat, best: nat, i: nat)
    requires |stamps| == SEATS && best < SEATS && u < SEATS
  {
    && (best == u || (i <= u && hn[u] != GONE)) && stamps[u] <= stamps[best]
    && forall k :: i <= k < SEATS && hn[k] != GONE ==> stamps[u] <= stamps[k]
  }

  lemma {:induction false} FastestFromIs(hn: Sizes, stamps: seq<int>, u: nat, best: nat, i: nat)
    requires |stamps| == SEATS && best < i <= SEATS && u < SEATS
    ensures var f := FastestFrom(hn, stamps, u, best, i);
      && (f == best || (i <= f && hn[f] != GONE)) && stamps[f] <= stamps[best]
      && (forall k :: i <= k < SEATS && hn[k] != GONE ==> stamps[f] <= stamps[k])
      && (MayWin(hn, stamps, u, best, i) ==> f == u)
    decreases SEATS - i
  {
    if i < SEATS {
      var better := hn[i] != GONE && (stamps[i] < stamps[best] || (stamps[i] == stamps[best] && i == u));
      FastestFromIs(hn, stamps, u, if better then i else best, i + 1);
    }
  }

  /** The player called is safe if and only if nobody in the game was faster, a tie being
      theirs. Seat 0 is looked at even when nobody sits there. */
  lemma FastestExactly(g: Game, u: nat)
    requires Shaped(g) && u < SEATS
    ensures Fastest(g, u) == u <==>
      && (u == 0 || Active(g.sizes, u)) && g.stamps[u] <= g.stamps[0]
      && forall k :: 0 <= k < SEATS && Active(g.sizes, k) ==> g.stamps[u] <= g.stamps[k]
  {
    FastestFromIs(g.sizes, g.stamps, u, 0, 1);
  }

  /** Lines 596-604 from seat `j` on: the first player in the game of that name; `names` are
      those of the first ten connections. */
  function Named(hn: Sizes, names: seq<string>, name: string, j: nat): (r: Option<nat>)
    requires |names| == SEATS && j <= SEATS
    ensures r.Some? ==> j <= r.value < SEATS && Active(hn, r.value) && names[r.value] == name
    ensures forall s :: j <= s < (if r.Some? then r.value else SEATS) ==> !(Active(hn, s) && names[s] == name)
    decreases SEATS - j
  {
    if j == SEATS then None
    else if hn[j] != GONE && names[j] == name then Some(j)
    else Named(hn, names, name, j + 1)
  }

  /** The `have_uno` with which an accusation reaches line 605. */
  function HaveUno(g: Game, names: seq<string>, name: string): int
    requires Shaped(g) && |names| == SEATS
  {
    if g.call.Some? then g.call.value
    else
      var r := Named(g.sizes, names, name, 0);
      if r.Some? then r.value else -1
  }

  /** Line 605 reads within its arrays if and only if a call is pending or a player in the
      game has the name; these accusations are the ones that are events. */
  lemma AccuseInRange(g: Game, i: nat, names: seq<string>, name: string, stamp: int)
    requires Shaped(g) && !g.over && !g.stuck && Here(g, i) && |names| == SEATS
    ensures 0 <= HaveUno(g, names, name) < SEATS <==>
      g.call.Some? || exists s :: 0 <= s < SEATS && Active(g.sizes, s) && names[s] == name
    ensures 0 <= HaveUno(g, names, name) < SEATS <==> Enabled(g, Accuse(i, Named(g.sizes, names, name, 0), stamp))
  {
    var r := Named(g.sizes, names, name, 0);
    if r.Some? {
      assert Active(g.sizes, r.value) && names[r.value] == name;
    }
  }

  lemma DrawCounts(g: Game, seat: nat, rand: Rand)
    requires Shaped(g) && seat < SEATS && !g.stuck
    ensures var h := Draw(g, seat, rand);
      !h.stuck ==> h.sizes == g.sizes[seat := g.sizes[seat] + 1] && h.players == g.players
  {
    hide Shuffle, Unheld;
  }

  lemma {:induction false} GiveCounts(g: Game, seat: nat, n: nat, rands: Rands)
    requires Shaped(g) && seat < SEATS && !g.stuck
    ensures var h := Give(g, seat, n, rands);
      !h.stuck ==> h.sizes == g.sizes[seat := g.sizes[seat] + n] && h.players == g.players
    decreases n
  {
    hide Draw;
    if n > 0 {
      var f := Draw(g, seat, rands(n));
      DrawCounts(g, seat, rands(n));
      if f.stuck {
        GiveStuck(f, seat, n - 1, rands);
      } else {
        GiveCounts(f, seat, n - 1, rands);
      }
    }
  }

  lemma GiveStuck(g: Game, seat: nat, n: nat, rands: Rands)
    requires Shaped(g) && seat < SEATS && g.stuck
    ensures Give(g, seat, n, rands) == g
  {
  }

  /** Two cards for a player who has left bring the seat back, which `player_num` does
      not know. */
  lemma UnfairBreaks(g: Game, e: Event)
    requires Inv(g) && Enabled(g, e) && !Fair(g, e)
    ensures !Step(g, e).stuck ==> !TurnOk(Step(g, e))
  {
    hide Give, CardsOk, Fastest, ActiveSeats;
    var u, h := g.call.value, Step(g, e);
    GiveCounts(g, u, 2, e.rands);
    if !h.stuck {
      SeatComesBack(g.sizes, u);
    }
  }

  lemma SeatComesBack(hn: Sizes, u: nat)
    requires u < SEATS && hn[u] == GONE
    ensures |ActiveSeats(hn[u := hn[u] + 2])| == |ActiveSeats(hn)| + 1
  {
    assert ActiveSeats(hn[u := hn[u] + 2]) == ActiveSeats(hn) + {u};
  }

  /** The messages can come one after the other, and no draw finds the pile empty even
      after a reshuffle. */
  predicate Goes(g: Game, run: seq<Event>)
    decreases |run|
  {
    run == [] || (Enabled(g, run[0]) && !Step(g, run[0]).stuck && Goes(Step(g, run[0]), run[1..]))
  }

  predicate AlwaysTurnOk(g: Game, run: seq<Event>)
    requires Goes(g, run) && Shaped(g)
    decreases |run|
  {
    TurnOk(g) && (run == [] || AlwaysTurnOk(Step(g, run[0]), run[1..]))
  }

  /** The turn stays with a player and `player_num` right in every state of a game if and
      only if nobody is caught after having left. */
  lemma {:induction false} FairExactly(g: Game, run: seq<Event>)
    requires Inv(g) && Goes(g, run)
    ensures FairRun(g, run) <==> AlwaysTurnOk(g, run)
    decreases |run|
  {
    hide CardsOk, TurnOk, Step, Fair;
    if run != [] {
      var h := Step(g, run[0]);
      if Fair(g, run[0]) {
        StepKeepsInv(g, run[0]);
        FairExactly(h, run[1..]);
      } else {
        UnfairBreaks(g, run[0]);
        NotAlways(h, run[1..]);
      }
    }
  }

  lemma NotAlways(g: Game, run: seq<Event>)
    requires Shaped(g) && Goes(g, run) && !TurnOk(g)
    ensures !AlwaysTurnOk(g, run)
  {
  }

  // ---------------------------------------------------------------------
  // `hand_num` when a player is caught after having left
  // ---------------------------------------------------------------------

  /** Without a reshuffle the cards given are new to the hand. */
  lemma {:induction false} GiveFills(g: Game, seat: nat, n: nat, rands: Rands)
    requires Shaped(g) && Conserved(g) && seat < SEATS && !g.reshuffled && !g.stuck
    ensures var h := Give(g, seat, n, rands);
      !h.reshuffled ==> !h.stuck && |h.hands[seat]| == |g.hands[seat]| + n
    decreases n
  {
    hide Conserved, Draw;
    if n > 0 {
      var f := Draw(g, seat, rands(n));
      DrawFills(g, seat, rands(n));
      if f.reshuffled {
        StaysReshuffled(f, seat, n - 1, rands);
      } else {
        GiveFills(f, seat, n - 1, rands);
      }
    }
  }

  lemma DrawFills(g: Game, seat: nat, rand: Rand)
    requires Shaped(g) && Conserved(g) && seat < SEATS && !g.reshuffled && !g.stuck
    ensures var h := Draw(g, seat, rand);
      !h.reshuffled ==> Conserved(h) && !h.stuck && |h.hands[seat]| == |g.hands[seat]| + 1
  {
    hide Conserved, Shuffle, Unheld;
    if g.left > 0 {
      TakeConserves(g, seat);
    }
  }

  lemma {:induction false} StaysReshuffled(g: Game, seat: nat, n: nat, rands: Rands)
    requires Shaped(g) && seat < SEATS && g.reshuffled
    ensures Give(g, seat, n, rands).reshuffled
    decreases n
  {
    hide Shuffle, Unheld;
    if n > 0 && !g.stuck {
      StaysReshuffled(Draw(g, seat, rands(n)), seat, n - 1, rands);
    }
  }

  /** A player caught after leaving is in the game again with `hand_num` 1, although the
      row has the two cards given at least. */
  lemma UnfairMiscounts(g: Game, e: Event)
    requires Inv(g) && !g.reshuffled && Enabled(g, e) && !Fair(g, e)
    ensures var u, h := g.call.value, Step(g, e);
      !h.reshuffled ==> !h.stuck && h.sizes[u] == 1 && |h.hands[u]| >= 2 && !Counted(h)
  {
    hide Give, Conserved, Fastest, ActiveSeats;
    GiveCounts(g, g.call.value, 2, e.rands);
    GiveFills(g, g.call.value, 2, e.rands);
  }

  /** The messages can come one after the other. */
  predicate Comes(g: Game, run: seq<Event>)
    decreases |run|
  {
    run == [] || (Enabled(g, run[0]) && Comes(Step(g, run[0]), run[1..]))
  }

  /** Until the first reshuffle nobody is caught after having left. */
  predicate FairUntil(g: Game, run: seq<Event>)
    requires Comes(g, run)
    decreases |run|
  {
    run == [] ||
    var h := Step(g, run[0]);
    h.reshuffled || (Fair(g, run[0]) && FairUntil(h, run[1..]))
  }

  /** Until the first reshuffle `hand_num` counts the hand of everybody in the game. */
  predicate AlwaysCounted(g: Game, run: seq<Event>)
    requires Comes(g, run) && Shaped(g)
    decreases |run|
  {
    g.reshuffled || (Counted(g) && (run == [] || AlwaysCounted(Step(g, run[0]), run[1..])))
  }

  /** The one goes with the other. */
  lemma {:induction false} CountedExactly(g: Game, run: seq<Event>)
    requires Inv(g) && !g.reshuffled && Comes(g, run)
    ensures FairUntil(g, run) <==> AlwaysCounted(g, run)
    decreases |run|
  {
    hide Inv, Step, Fair, Counted;
    InvCounted(g);
    if run != [] {
      var h := Step(g, run[0]);
      if !h.reshuffled && Fair(g, run[0]) {
        StepKeepsInv(g, run[0]);
        CountedExactly(h, run[1..]);
      } else if !h.reshuffled {
        UnfairMiscounts(g, run[0]);
      }
    }
  }

  lemma InvCounted(g: Game)
    requires Inv(g) && !g.reshuffled
    ensures Shaped(g) && Counted(g)
  {
    hide Conserved;
  }

  /** It can come to that: at a table of three, a player with one card is accused from a
      lower seat, which is heard first, and leaves in the same round. */
  lemma CaughtAfterLeaving(g: Game, i: nat, u: nat, stamp: int, rands: Rands)
    requires Inv(g) && !g.over && !g.stuck && g.players >= 3 && g.call == None
    requires (forall k :: 0 <= k < SEATS ==> g.stamps[k] == LONG_MAX) && stamp < LONG_MAX
    requires Here(g, i) && Here(g, u) && i < u && MayCall(g, u)
    ensures var accuse := Accuse(i, Some(u), stamp);
      Enabled(g, accuse) &&
      var a := Step(g, accuse);
      Enabled(a, Leave(u)) &&
      var b := Step(a, Leave(u));
      Enabled(b, EndRound(rands)) && !Fair(b, EndRound(rands))
  {
    hide CardsOk, NextSeat, Fastest;
    var a := Step(g, Accuse(i, Some(u), stamp));
    var b := Step(a, Leave(u));
    assert b.stamps[i] == stamp && b.call == Some(u) && b.sizes[u] == GONE && Active(b.sizes, i);
    FastestExactly(b, u);
  }

  // ---------------------------------------------------------------------
  // The cards, however the calls are judged
  // ---------------------------------------------------------------------

  /** Until the first reshuffle every card is in exactly one place. */
  ghost predicate Kept(g: Game) {
    Shaped(g) && (!g.reshuffled ==> Conserved(g))
  }

  /** Only the cards matter. */
  lemma KeptAs(g: Game, h: Game)
    requires Kept(g) && Shaped(h) && h.reshuffled == g.reshuffled
    requires (h.hands, h.pile, h.left, h.discard) == (g.hands, g.pile, g.left, g.discard)
    ensures Kept(h)
  {
    forall c ensures Places(h, c) == Places(g, c) {
    }
  }

  lemma {:induction false} GiveKeeps(g: Game, seat: nat, n: nat, rands: Rands)
    requires Kept(g) && seat < SEATS
    ensures Kept(Give(g, seat, n, rands))
    decreases n
  {
    hide Conserved, Draw;
    if n > 0 && !g.stuck {
      DrawKeeps(g, seat, rands(n));
      GiveKeeps(Draw(g, seat, rands(n)), seat, n - 1, rands);
    }
  }

  lemma DrawKeeps(g: Game, seat: nat, rand: Rand)
    requires Kept(g) && seat < SEATS
    ensures Kept(Draw(g, seat, rand))
  {
    hide Conserved;
    if g.left > 0 && !g.reshuffled {
      TakeConserves(g, seat);
    }
  }

  lemma PutDownKeeps(g: Game, i: nat, name: (char, char))
    requires Kept(g) && i < SEATS
    ensures Kept(PutDown(g, i, name))
  {
    hide Places, Find;
    var h := PutDown(g, i, name);
    if !g.reshuffled {
      forall c | 0 <= c < CARDS ensures Places(h, c) == 1 {
        PutDownMoves(g, i, name, c);
      }
    }
  }

  lemma EffectKeeps(g: Game, rands: Rands)
    requires Kept(g)
    ensures Kept(Effect(g, rands))
  {
    hide Kept, NextSeat, Give;
    KeptShaped(g);
    if 76 <= g.table < 84 {
      KeptAs(g, Advance(Advance(g)));
    } else if 84 <= g.table < 92 {
      KeptAs(g, Effect(g, rands));
    } else if 92 <= g.table < 100 {
      PunishKeeps(g, 2, rands);
    } else if 104 <= g.table < 108 {
      PunishKeeps(g, 4, rands);
    } else {
      KeptAs(g, Advance(g));
    }
  }

  lemma PunishKeeps(g: Game, n: nat, rands: Rands)
    requires Kept(g)
    ensures Shaped(g) && Kept(Punish(g, n, rands))
  {
    hide Conserved, NextSeat, Give;
    var f := Advance(g);
    KeptAs(g, f);
    GiveKeeps(f, f.seat, n, rands);
    KeptAs(Give(f, f.seat, n, rands), Punish(g, n, rands));
  }

  lemma KeptShaped(g: Game)
    requires Kept(g)
    ensures Shaped(g)
  {
  }

  lemma JudgeKeeps(g: Game, rands: Rands)
    requires Kept(g)
    ensures Shaped(g) && Kept(Judge(g, rands))
  {
    hide Conserved, Give, Fastest;
    if g.call.Some? && Fastest(g, g.call.value) != g.call.value {
      var f := Give(g, g.call.value, 2, rands);
      GiveKeeps(g, g.call.value, 2, rands);
      KeptAs(f, Judge(g, rands));
    } else {
      KeptAs(g, Judge(g, rands));
    }
  }

  lemma StepKeeps(g: Game, e: Event)
    requires Kept(g) && Enabled(g, e)
    ensures Kept(Step(g, e))
  {
    hide Kept, PutDown, Effect, NextSeat, Give, Judge;
    match e
    case Leave(i) => KeptAs(g, Step(g, e));
    case Play(i, name, rands) =>
      var f := PutDown(g, i, name);
      PutDownKeeps(g, i, name);
      KeptAs(f, f.(over := true));
      EffectKeeps(f, rands);
    case Skip(_, rands) =>
      GiveKeeps(g, g.seat, 1, rands);
      KeptAs(Give(g, g.seat, 1, rands), Step(g, e));
    case Penalty(i, rands) => GiveKeeps(g, i, 2, rands);
    case CallUno(_, _) => KeptAs(g, Step(g, e));
    case Accuse(_, _, _) => KeptAs(g, Step(g, e));
    case EndRound(rands) => JudgeKeeps(g, rands);
  }

  lemma {:induction false} RunKeeps(g: Game, run: seq<Event>, h: Game)
    requires Kept(g) && Reaches(g, run, h)
    ensures Kept(h)
    decreases |run|
  {
    hide Kept, Step;
    if run != [] {
      StepKeeps(g, run[0]);
      RunKeeps(Step(g, run[0]), run[1..], h);
    }
  }

  // ---------------------------------------------------------------------
  // The turn, however the calls are judged
  // ---------------------------------------------------------------------

  /** While the game goes on the turn is with a player, and every player has cards;
      `player_num` never exceeds the players. */
  predicate Steady(g: Game) {
    && Shaped(g) && g.players <= |ActiveSeats(g.sizes)| && (g.turn == 0 || g.turn == 1)
    && (!g.over && !g.stuck ==> Active(g.sizes, g.seat) && AllHaveCards(g.sizes))
  }

  lemma MoreActive(a: Sizes, b: Sizes)
    requires forall s :: 0 <= s < SEATS && Active(a, s) ==> Active(b, s)
    ensures |ActiveSeats(a)| <= |ActiveSeats(b)|
  {
    SubsetCount(ActiveSeats(a), ActiveSeats(b));
  }

  /** Draws take nobody out of the game. */
  lemma {:induction false} GiveGrows(g: Game, seat: nat, n: nat, rands: Rands)
    requires Shaped(g) && seat < SEATS && g.sizes[seat] >= GONE
    ensures var h := Give(g, seat, n, rands);
      && h.players == g.players && h.seat == g.seat && h.turn == g.turn && h.over == g.over
      && h.sizes[seat] >= g.sizes[seat]
      && forall s :: 0 <= s < SEATS && s != seat ==> h.sizes[s] == g.sizes[s]
    decreases n
  {
    hide Draw;
    if n > 0 && !g.stuck {
      DrawGrows(g, seat, rands(n));
      GiveGrows(Draw(g, seat, rands(n)), seat, n - 1, rands);
    }
  }

  lemma DrawGrows(g: Game, seat: nat, rand: Rand)
    requires Shaped(g) && seat < SEATS
    ensures var h := Draw(g, seat, rand);
      && h.players == g.players && h.seat == g.seat && h.turn == g.turn && h.over == g.over
      && h.sizes[seat] >= g.sizes[seat] && forall s :: 0 <= s < SEATS && s != seat ==> h.sizes[s] == g.sizes[s]
  {
    hide Shuffle, Unheld;
  }

  /** So a draw keeps everything steady, if at least two cards go to a player who has left. */
  lemma GiveSteady(g: Game, seat: nat, n: nat, rands: Rands)
    requires Steady(g) && !g.over && !g.stuck && seat < SEATS && (Active(g.sizes, seat) || n >= 2)
    ensures var h := Give(g, seat, n, rands); Steady(h) && !h.over && h.seat == g.seat
  {
    hide Give;
    var h := Give(g, seat, n, rands);
    GiveGrows(g, seat, n, rands);
    GiveCounts(g, seat, n, rands);
    MoreActive(g.sizes, h.sizes);
  }

  lemma AdvanceSteady(g: Game)
    requires Steady(g)
    ensures Steady(Advance(g))
  {
    hide NextSeat;
    NextIsActive(g.seat, g.sizes, g.turn);
  }

  lemma PunishSteady(g: Game, n: nat, rands: Rands)
    requires Steady(g) && !g.over && !g.stuck
    ensures Steady(Punish(g, n, rands))
  {
    hide Give, NextSeat;
    var f := Advance(g);
    AdvanceSteady(g);
    GiveSteady(f, f.seat, n, rands);
    AdvanceSteady(Give(f, f.seat, n, rands));
  }

  lemma EffectSteady(g: Game, rands: Rands)
    requires Steady(g) && !g.over && !g.stuck
    ensures Steady(Effect(g, rands))
  {
    hide Punish, NextSeat;
    AdvanceSteady(g);
    if 76 <= g.table < 84 {
      AdvanceSteady(Advance(g));
    } else if 84 <= g.table < 92 {
      AdvanceSteady(g.(turn := (g.turn + 1) % 2));
    } else if 92 <= g.table < 100 {
      PunishSteady(g, 2, rands);
    } else if 104 <= g.table < 108 {
      PunishSteady(g, 4, rands);
    }
  }

  lemma PutDownSteady(g: Game, i: nat, name: (char, char))
    requires Steady(g) && !g.over && !g.stuck && i < SEATS && Active(g.sizes, i)
    ensures var h := PutDown(g, i, name);
      && !h.over && !h.stuck && h.sizes[i] >= 0 && Shaped(h) && Steady(if h.sizes[i] <= 0 then h.(over := true) else h)
  {
    hide Find;
    SameActive(g.sizes, PutDown(g, i, name).sizes);
  }

  lemma LeaveSteady(g: Game, i: nat)
    requires Steady(g) && Enabled(g, Leave(i))
    ensures Steady(Step(g, Leave(i)))
  {
    hide NextSeat;
    var f := g.(sizes := g.sizes[i := GONE], players := g.players - 1);
    assert ActiveSeats(f.sizes) == ActiveSeats(g.sizes) - {i};
    NextIsActive(f.seat, f.sizes, f.turn);
    if f.players >= 2 {
      AnotherActive(f.sizes, i);
    }
  }

  lemma JudgeSteady(g: Game, rands: Rands)
    requires Steady(g) && !g.over && !g.stuck
    ensures Steady(Judge(g, rands))
  {
    hide Give, Fastest, ActiveSeats;
    if g.call.Some? {
      GiveSteady(g, g.call.value, 2, rands);
    }
  }

  /** In every game, however the calls are judged, the turn stays with a player. */
  lemma StepSteady(g: Game, e: Event)
    requires Steady(g) && Enabled(g, e)
    ensures Steady(Step(g, e))
  {
    hide PutDown, Effect, NextSeat, Give, Judge, ActiveSeats;
    match e
    case Leave(i) => LeaveSteady(g, i);
    case Play(i, name, rands) =>
      PutDownSteady(g, i, name);
      if PutDown(g, i, name).sizes[i] > 0 {
        EffectSteady(PutDown(g, i, name), rands);
      }
    case Skip(_, rands) =>
      GiveSteady(g, g.seat, 1, rands);
      AdvanceSteady(Give(g, g.seat, 1, rands));
    case Penalty(i, rands) => GiveSteady(g, i, 2, rands);
    case CallUno(i, stamp) =>
    case Accuse(i, named, stamp) =>
    case EndRound(rands) => JudgeSteady(g, rands);
  }

  lemma {:induction false} RunSteady(g: Game, run: seq<Event>, h: Game)
    requires Steady(g) && Reaches(g, run, h)
    ensures Steady(h)
    decreases |run|
  {
    hide Steady, Step;
    if run != [] {
      StepSteady(g, run[0]);
      RunSteady(Step(g, run[0]), run[1..], h);
    }
  }

  lemma InvSteady(g: Game)
    requires Inv(g)
    ensures Steady(g) && Kept(g)
  {
    hide Conserved, Counted;
  }

  lemma {:induction false} ReachesSnoc(g: Game, run: seq<Event>, h: Game, e: Event)
    requires Reaches(g, run, h) && Enabled(h, e)
    ensures Reaches(g, run + [e], Step(h, e))
    decreases |run|
  {
    hide Step, Enabled;
    if run == [] {
      ReachesOne(g, e);
      assert run + [e] == [e];
    } else {
      ReachesSnoc(Step(g, run[0]), run[1..], h, e);
      assert (run + [e])[1..] == run[1..] + [e] && (run + [e])[0] == run[0];
    }
  }

  lemma ReachesOne(g: Game, e: Event)
    requires Enabled(g, e)
    ensures Reaches(g, [e], Step(g, e))
  {
    hide Step, Enabled;
    assert [e][1..] == [];
    assert Reaches(Step(g, e), [], Step(g, e));
  }
}

/** What UNO games of tcpcliserv/final_server.c come to from the opening: the first
    reshuffle, after which cards exist twice, and a player caught after having left. */
module UnoReached {
  import opened Wrappers
  import opened UnoTurn
  import opened UnoSpec
  import opened UnoCalls
  import opened UnoDeal

  /** Nobody else has cards. */
  ghost predicate OnlyPlayersHold(g: Game)
    requires Shaped(g)
  {
    forall s :: 0 <= s < SEATS && !Active(g.sizes, s) ==> g.hands[s] == {}
  }

  /** No card is in two of the hands and the pile, and every hand is counted right. */
  ghost predicate Sound(g: Game) {
    Shaped(g) && Counted(g) && forall c :: 0 <= c < CARDS ==> Held(g.hands, c) + Count(g.pile, g.left, c) <= 1
  }

  /** Nobody has called in this round. */
  predicate Quiet(g: Game)
    requires Shaped(g)
  {
    g.call == None && forall k :: 0 <= k < SEATS ==> g.stamps[k] == LONG_MAX
  }

  /** A game that goes on, between rounds, without a reshuffle yet. */
  ghost predicate Undisturbed(g: Game) {
    Inv(g) && !g.over && !g.stuck && !g.reshuffled && OnlyPlayersHold(g) && Quiet(g)
  }

  // ---------------------------------------------------------------------
  // Which cards are left when the pile is empty
  // ---------------------------------------------------------------------

  lemma {:induction false} HeldNone(hands: seq<set<int>>, c: int)
    requires forall s :: 0 <= s < |hands| ==> c !in hands[s]
    ensures Held(hands, c) == 0
  {
    if hands != [] {
      HeldNone(hands[1..], c);
    }
  }

  lemma {:induction false} CountNone(a: seq<int>, n: nat, c: int)
    requires n <= |a| && forall k :: 0 <= k < n ==> a[k] != c
    ensures Count(a, n, c) == 0
  {
    if n > 0 {
      CountNone(a, n - 1, c);
    }
  }

  lemma {:induction false} AllDifferent(a: seq<int>, n: nat)
    requires n <= |a| && forall c :: c in a ==> Count(a, n, c) <= 1
    ensures |Elements(a[..n])| == n
  {
    if n > 0 {
      AllDifferent(a, n - 1);
      assert a[..n] == a[..n - 1] + [a[n - 1]];
      assert Elements(a[..n]) == Elements(a[..n - 1]) + {a[n - 1]};
      if a[n - 1] in a[..n - 1] {
        var k :| 0 <= k < n - 1 && a[k] == a[n - 1];
        Occurs(a, n - 1, k);
      }
    }
  }

  lemma PlayedOrHeld(g: Game, c: int)
    requires Undisturbed(g) && g.left == 0 && 0 <= c < CARDS
    ensures c in Unheld(g) <==> c in g.discard
    ensures Count(g.discard, |g.discard|, c) <= 1
  {
    hide Held, Unheld, OnlyPlayersHold, Counted;
    assert Places(g, c) == 1;
    HeldOnce(g, c);
    if c !in g.discard {
      CountNone(g.discard, |g.discard|, c);
    } else {
      var k :| 0 <= k < |g.discard| && g.discard[k] == c;
      Occurs(g.discard, |g.discard|, k);
      NotHeld(g, c);
    }
  }

  lemma NotHeld(g: Game, c: int)
    requires Shaped(g) && 0 <= c < CARDS && Held(g.hands, c) == 0
    ensures c in Unheld(g)
  {
    hide Held;
    forall s | 0 <= s < SEATS ensures c !in g.hands[s] {
      HeldUpdate(g.hands, s, g.hands[s], c);
    }
  }

  lemma UnheldIsPlayed(g: Game)
    requires Undisturbed(g) && g.left == 0
    ensures Unheld(g) == Elements(g.discard) && |Unheld(g)| == |g.discard|
  {
    hide Inv, Unheld, OnlyPlayersHold, Count;
    UndisturbedHas(g);
    DiscardsAreCards(g);
    UnheldAreCards(g);
    forall c | 0 <= c < CARDS
      ensures (c in Unheld(g) <==> c in g.discard) && Count(g.discard, |g.discard|, c) <= 1
    {
      PlayedOrHeld(g, c);
    }
    AllDifferent(g.discard, |g.discard|);
    assert g.discard[..|g.discard|] == g.discard;
    assert forall c :: c in Unheld(g) <==> c in Elements(g.discard);
  }

  lemma DiscardsAreCards(g: Game)
    requires Inv(g) && !g.reshuffled
    ensures forall c :: c in g.discard ==> 0 <= c < CARDS
  {
    hide Places;
  }

  // ---------------------------------------------------------------------
  // The draw that reshuffles
  // ---------------------------------------------------------------------

  /** The number of a held card comes up again. */
  lemma DoubledCard(g: Game, rand: Rand, p: nat, c: int)
    requires Undisturbed(g) && p < SEATS && Active(g.sizes, p)
    requires 0 <= c < |Unheld(g)| && c !in Unheld(g)
    ensures var f := Reshuffle(g, rand); f.left > 0 && !Sound(Take(f, p))
  {
    hide Held, Count, Reshuffle, Conserved;
    UnheldFits(g);
    var f := Reshuffle(g, rand);
    PileAfter(g, rand, c);
    ReshuffleKeeps(g, rand);
    var s :| 0 <= s < SEATS && Active(g.sizes, s) && c in g.hands[s];
    HeldUpdate(f.hands, s, f.hands[s], c);
    TakeDoubles(f, p, c);
  }

  lemma TakeDoubles(f: Game, p: nat, c: int)
    requires Shaped(f) && f.left > 0 && p < SEATS && Active(f.sizes, p) && f.sizes[p] == |f.hands[p]|
    requires 0 <= c < CARDS && Held(f.hands, c) >= 1 && Count(f.pile, f.left, c) == 1
    ensures !Sound(Take(f, p))
  {
    hide Held, Count;
    var t, x := f.pile[f.left - 1], Take(f, p);
    CountLast(f.pile, f.left, c);
    HeldUpdate(f.hands, p, f.hands[p] + {t}, c);
    if t == c && c in f.hands[p] {
      assert x.hands[p] == f.hands[p] && x.sizes[p] == f.sizes[p] + 1;
      assert Active(x.sizes, p);
    }
  }

  lemma CountLast(a: seq<int>, n: nat, c: int)
    requires 0 < n <= |a|
    ensures Count(a, n, c) == Count(a, n - 1, c) + if a[n - 1] == c then 1 else 0
  {
  }

  lemma ReshuffleKeeps(g: Game, rand: Rand)
    requires Shaped(g)
    ensures var f := Reshuffle(g, rand);
      && (f.hands, f.sizes, f.seat, f.over, f.stuck) == (g.hands, g.sizes, g.seat, g.over, g.stuck)
      && f.left == |Unheld(g)|
  {
    hide Shuffle, Unheld;
  }

  /** A card that only the pile has is drawn. */
  lemma SoundDraw(g: Game, rand: Rand, p: nat)
    requires Undisturbed(g) && p < SEATS && Active(g.sizes, p)
    requires forall c :: 0 <= c < CARDS ==> (c < |Unheld(g)| <==> c in Unheld(g))
    requires |Unheld(g)| > 0
    ensures var f := Reshuffle(g, rand); f.left > 0 && Sound(Take(f, p))
  {
    hide Held, Count, Reshuffle, Unheld, Places, OnlyPlayersHold;
    UnheldFits(g);
    var f := Reshuffle(g, rand);
    ReshuffleKeeps(g, rand);
    forall c | 0 <= c < CARDS ensures Held(f.hands, c) + Count(f.pile, f.left, c) <= 1 {
      PileAfter(g, rand, c);
      HeldOnce(g, c);
    }
    var t := f.pile[f.left - 1];
    PileAfter(g, rand, t);
    Occurs(f.pile, f.left, f.left - 1);
    TakeSound(f, p);
  }

  lemma TakeSound(f: Game, p: nat)
    requires Sound(f) && f.left > 0 && p < SEATS && Active(f.sizes, p) && f.sizes[p] >= 0
    requires 0 <= f.pile[f.left - 1] < CARDS
    ensures Sound(Take(f, p))
  {
    hide Held, Count;
    var t, x := f.pile[f.left - 1], Take(f, p);
    CountLast(f.pile, f.left, t);
    Occurs(f.pile, f.left, f.left - 1);
    HeldUpdate(f.hands, p, f.hands[p], t);
    forall c | 0 <= c < CARDS ensures Held(x.hands, c) + Count(x.pile, x.left, c) <= 1 {
      CountLast(f.pile, f.left, c);
      HeldUpdate(f.hands, p, f.hands[p] + {t}, c);
    }
  }

  lemma HeldOnce(g: Game, c: int)
    requires Undisturbed(g) && 0 <= c < CARDS
    ensures Held(g.hands, c) <= 1 && (c in Unheld(g) ==> Held(g.hands, c) == 0)
  {
    hide Held;
    assert Places(g, c) == 1;
    if c in Unheld(g) {
      HeldNone(g.hands, c);
    }
  }

  /** The first draw from an empty pile leaves the cards in order if and only if the cards
      played so far are the lowest-numbered ones. */
  lemma FirstDrawExactly(g: Game, rand: Rand, p: nat)
    requires Undisturbed(g) && g.left == 0 && p < SEATS && Active(g.sizes, p)
    ensures Sound(Draw(g, p, rand)) <==> forall c :: c in g.discard ==> c < |g.discard|
  {
    hide Undisturbed, Unheld, Sound, Reshuffle, Take, Elements;
    UndisturbedHas(g);
    UnheldIsPlayed(g);
    ElementsAre(g.discard);
    ReshuffleKeeps(g, rand);
    UnheldAreCards(g);
    LowestOnes(Unheld(g));
    if forall c :: c in g.discard ==> c < |g.discard| {
      SoundDraw(g, rand, p);
    } else {
      var c :| 0 <= c < CARDS && !(c < |Unheld(g)| <==> c in Unheld(g));
      LowHeld(Unheld(g));
      var d :| 0 <= d < |Unheld(g)| && d !in Unheld(g);
      DoubledCard(g, rand, p, d);
    }
  }

  lemma ElementsAre(a: seq<int>)
    ensures forall c :: c in Elements(a) <==> c in a
  {
  }

  lemma UndisturbedHas(g: Game)
    requires Undisturbed(g)
    ensures Shaped(g) && g.discard != [] && !g.stuck
  {
    hide Conserved, Counted;
  }

  /** Cards that are not the lowest ones leave a gap. */
  lemma LowHeld(u: set<int>)
    requires exists c :: c in u && c >= |u|
    ensures exists d :: 0 <= d < |u| && d !in u
  {
    if forall d :: 0 <= d < |u| ==> d in u {
      SubsetFull(Below(|u|), u);
    }
  }

  // ---------------------------------------------------------------------
  // Rounds of select
  // ---------------------------------------------------------------------

  /** Lines 362-382: a round takes at most one message from each seat, the lower seats
      first. Seats below `next` have had their chance. */
  predicate InRounds(run: seq<Event>, next: nat) {
    run == [] ||
    if run[0].EndRound? then InRounds(run[1..], 0)
    else next <= run[0].i && InRounds(run[1..], run[0].i + 1)
  }

  /** A round with one message that is no call. */
  lemma RoundOfOne(g: Game, e: Event, rands: Rands, rest: seq<Event>, x: Game)
    requires Enabled(g, e) && !e.EndRound?
    requires var h := Step(g, e); Quiet(h) && !h.over && !h.stuck && Reaches(h, rest, x)
    ensures Reaches(g, [e, EndRound(rands)] + rest, x)
    ensures InRounds(rest, 0) ==> InRounds([e, EndRound(rands)] + rest, 0)
  {
    hide Step;
    var h, run := Step(g, e), [e, EndRound(rands)] + rest;
    EndOfQuietRound(h, rands);
    assert run[1..] == [EndRound(rands)] + rest && run[1..][1..] == rest;
  }

  lemma EndOfQuietRound(g: Game, rands: Rands)
    requires Shaped(g) && Quiet(g) && !g.over && !g.stuck
    ensures Enabled(g, EndRound(rands)) && Step(g, EndRound(rands)) == g
  {
    assert g.stamps == seq(SEATS, _ => LONG_MAX);
  }

  // ---------------------------------------------------------------------
  // Skipping until the pile is empty
  // ---------------------------------------------------------------------

  /** `n` rounds in which whoever has the turn skips. */
  function SkipRun(g: Game, n: nat, rands: Rands): seq<Event>
    requires Shaped(g)
    decreases n
  {
    var e := Skip(g.seat, rands);
    if n == 0 || !Enabled(g, e) then [] else [e, EndRound(rands)] + SkipRun(Step(g, e), n - 1, rands)
  }

  lemma SkipIs(g: Game, rands: Rands)
    requires Shaped(g) && Enabled(g, Skip(g.seat, rands)) && g.seat < SEATS
    ensures Step(g, Skip(g.seat, rands)) == Advance(Draw(g, g.seat, rands(1)))
  {
    hide Draw, NextSeat;
    var f := Draw(g, g.seat, rands(1));
    assert Give(f, g.seat, 0, rands) == f;
  }

  lemma MaySkip(g: Game, rands: Rands)
    requires Undisturbed(g)
    ensures Enabled(g, Skip(g.seat, rands)) && Active(g.sizes, g.seat)
  {
    hide CardsOk;
  }

  lemma SkipKeeps(g: Game, rands: Rands)
    requires Undisturbed(g) && g.left > 0
    ensures var e := Skip(g.seat, rands);
      Enabled(g, e) && var h := Step(g, e); Undisturbed(h) && h.left == g.left - 1 && h.discard == g.discard
  {
    hide Inv, NextSeat, OnlyPlayersHold, Step;
    MaySkip(g, rands);
    SkipIs(g, rands);
    StepKeepsInv(g, Skip(g.seat, rands));
    SkipKeepsHands(g);
  }

  lemma SkipKeepsHands(g: Game)
    requires Undisturbed(g) && g.left > 0
    ensures OnlyPlayersHold(Advance(Take(g, g.seat))) && Quiet(Advance(Take(g, g.seat)))
  {
    hide CardsOk, NextSeat;
  }

  lemma AdvanceKeepsSound(g: Game)
    requires Shaped(g)
    ensures Sound(Advance(g)) <==> Sound(g)
  {
    hide NextSeat;
  }

  /** One skip more, and the pile is reshuffled. */
  lemma SkipReshuffles(g: Game, rands: Rands)
    requires Undisturbed(g) && g.left == 0
    ensures var e := Skip(g.seat, rands);
      Enabled(g, e) && var x := Step(g, e);
        && x.reshuffled && !x.stuck && !x.over && Quiet(x)
        && (Sound(x) <==> forall c :: c in g.discard ==> c < |g.discard|)
  {
    hide Inv, OnlyPlayersHold, Unheld, Step, Sound, NextSeat, Shuffle;
    MaySkip(g, rands);
    SkipIs(g, rands);
    FirstReshuffleSupplies(g, g.seat, rands(1));
    FirstDrawExactly(g, rands(1), g.seat);
    AdvanceKeepsSound(Draw(g, g.seat, rands(1)));
    DrawQuiet(g, g.seat, rands(1));
  }

  lemma DrawQuiet(g: Game, seat: nat, rand: Rand)
    requires Undisturbed(g) && seat < SEATS
    ensures var h := Draw(g, seat, rand); Quiet(h) && h.over == g.over
  {
    hide Inv, OnlyPlayersHold, Unheld, Shuffle;
    UndisturbedHas(g);
  }

  lemma SkipRunStep(g: Game, n: nat, rands: Rands, x: Game)
    requires Undisturbed(g) && n > 0 && Enabled(g, Skip(g.seat, rands))
    requires var h := Step(g, Skip(g.seat, rands));
      && Quiet(h) && !h.over && !h.stuck && Reaches(h, SkipRun(h, n - 1, rands), x)
      && InRounds(SkipRun(h, n - 1, rands), 0)
    ensures Reaches(g, SkipRun(g, n, rands), x) && InRounds(SkipRun(g, n, rands), 0)
  {
    hide Inv, OnlyPlayersHold, Step, Enabled, Quiet, InRounds, Reaches;
    var e := Skip(g.seat, rands);
    RoundOfOne(g, e, rands, SkipRun(Step(g, e), n - 1, rands), x);
  }

  /** As many rounds as there are cards in the pile, and one more, with nothing but a skip. */
  ghost predicate ReshufflesInto(g: Game, rands: Rands, x: Game) {
    && Shaped(g) && Reaches(g, SkipRun(g, g.left + 1, rands), x) && InRounds(SkipRun(g, g.left + 1, rands), 0)
    && x.reshuffled && !x.stuck
  }

  /** From an undisturbed game skips lead to an empty pile, and on to the reshuffle. */
  lemma {:induction false} SkipsReshuffle(g: Game, rands: Rands)
    requires Undisturbed(g)
    ensures exists x :: ReshufflesInto(g, rands, x) && (Sound(x) <==> forall c :: c in g.discard ==> c < |g.discard|)
    decreases g.left
  {
    hide Undisturbed, Step, Enabled, Sound, SkipRun, Quiet;
    var e := Skip(g.seat, rands);
    StillQuiet(g);
    if g.left == 0 {
      SkipReshuffles(g, rands);
      NoSkips(Step(g, e), rands);
      assert Reaches(Step(g, e), [], Step(g, e));
      SkipRunStep(g, 1, rands, Step(g, e));
      assert ReshufflesInto(g, rands, Step(g, e));
    } else {
      SkipKeeps(g, rands);
      SkipsReshuffle(Step(g, e), rands);
      var x :| ReshufflesInto(Step(g, e), rands, x)
               && (Sound(x) <==> forall c :: c in g.discard ==> c < |g.discard|);
      StillQuiet(Step(g, e));
      SkipRunStep(g, g.left + 1, rands, x);
      assert ReshufflesInto(g, rands, x);
    }
  }

  lemma StillQuiet(g: Game)
    requires Undisturbed(g)
    ensures Shaped(g) && Quiet(g) && !g.over && !g.stuck
  {
    hide CardsOk;
  }

  lemma NoSkips(g: Game, rands: Rands)
    requires Shaped(g)
    ensures SkipRun(g, 0, rands) == []
  {
  }

  lemma {:induction false} DealQuiet(pile: seq<int>, cardId: int, used: Seats, i: nat)
    requires |pile| == CARDS && i <= SEATS && Conserved(Fresh(pile, cardId))
    ensures var g := Deal(pile, cardId, used, i);
      g.call == None && (forall k :: 0 <= k < SEATS ==> !g.isUno[k] && g.stamps[k] == LONG_MAX)
  {
    hide Conserved, DealCards;
    if i > 0 {
      DealQuiet(pile, cardId, used, i - 1);
      DealConserves(pile, cardId, used, i - 1);
      if used[i - 1] {
        DealCardsConserve(Deal(pile, cardId, used, i - 1), i - 1, HAND);
      }
    }
  }

  lemma OpenedUndisturbed(n: nat, rand: Rand, cardId: int, used: Seats, seat: nat)
    requires n == CARDS && seat < SEATS && used[seat]
    ensures Undisturbed(Opened(n, rand, cardId, used, seat))
  {
    hide Conserved, Shuffle, Wilds, Deal, TurnUp, Inv;
    FreshConserved(n, rand, cardId);
    var d := Deal(Shuffle(n, rand), cardId, used, SEATS);
    DealConserves(Shuffle(n, rand), cardId, used, SEATS);
    DealQuiet(Shuffle(n, rand), cardId, used, SEATS);
    EightWilds(d);
    TurnUpEnds(d);
    OpenedInv(n, rand, cardId, used, seat);
  }

  /** Only the last of the cards turned up is not wild; and the first comes from the top. */
  lemma {:induction false} TurnedUp(g: Game)
    requires Shaped(g) && forall k :: 0 <= k < |g.discard| ==> g.discard[k] >= 100
    ensures var d := TurnUp(g).discard;
      && (forall k :: 0 <= k < |d| - 1 ==> d[k] >= 100)
      && (g.discard == [] && g.left > 0 ==> d != [] && d[0] == g.pile[g.left - 1])
      && (g.discard != [] ==> d != [] && d[0] == g.discard[0])
    decreases g.left
  {
    if g.left > 0 && g.pile[g.left - 1] >= 100 {
      TurnedUp(g.(left := g.left - 1, table := g.pile[g.left - 1], discard := g.discard + [g.pile[g.left - 1]]));
    }
  }

  lemma OpenedDiscard(n: nat, rand: Rand, cardId: int, used: Seats, seat: nat)
    requires n == CARDS && seat < SEATS && used[seat]
    ensures var d := Opened(n, rand, cardId, used, seat).discard;
      && |d| > 0 && d[0] == Shuffle(n, rand)[CARDS - HAND * Rank(used, SEATS) - 1]
      && ((forall c :: c in d ==> 0 <= c < |d|) <==> d == [0])
  {
    hide Conserved, Shuffle, TurnUp, Deal, Inv;
    FreshConserved(n, rand, cardId);
    DealConserves(Shuffle(n, rand), cardId, used, SEATS);
    TurnedUp(Deal(Shuffle(n, rand), cardId, used, SEATS));
    OpenedInv(n, rand, cardId, used, seat);
    var d := Opened(n, rand, cardId, used, seat).discard;
    if forall c :: c in d ==> 0 <= c < |d| {
      assert d[0] in d;
    }
  }

  /** Whatever the random numbers, players who only skip come to the first reshuffle; the
      cards are in order after it if and only if the game was opened with card 0 and no
      other. */
  lemma FirstReshuffle(n: nat, rand: Rand, cardId: int, used: Seats, seat: nat, rands: Rands)
    requires n == CARDS && seat < SEATS && used[seat]
    ensures var g := Opened(n, rand, cardId, used, seat);
      exists x :: ReshufflesInto(g, rands, x) && (Sound(x) <==> g.discard == [0])
  {
    hide Opened, Undisturbed, Sound, ReshufflesInto;
    var g := Opened(n, rand, cardId, used, seat);
    OpenedUndisturbed(n, rand, cardId, used, seat);
    OpenedDiscard(n, rand, cardId, used, seat);
    PlayedAreCards(g);
    SkipsReshuffle(g, rands);
  }

  lemma PlayedAreCards(g: Game)
    requires Undisturbed(g)
    ensures forall c :: c in g.discard ==> 0 <= c < CARDS
  {
    DiscardsAreCards(g);
  }

  // ---------------------------------------------------------------------
  // Random numbers that change nothing
  // ---------------------------------------------------------------------

  ghost predicate Same(rand: Rand) {
    forall i :: rand(i) == i
  }

  lemma {:induction false} SameExchanges(a: seq<int>, i: nat, rand: Rand)
    requires (i < |a| || i == 0) && Same(rand)
    ensures Exchanges(a, i, rand) == a
    decreases i
  {
    if i > 0 {
      assert rand(i) % (i + 1) == i;
      assert Swap(a, i, i) == a;
      SameExchanges(a, i - 1, rand);
    }
  }

  lemma SameShuffle(n: nat, rand: Rand)
    requires Same(rand)
    ensures Shuffle(n, rand) == Iota(n)
  {
    SameExchanges(Iota(n), if n == 0 then 0 else n - 1, rand);
  }

  /** For these the cards get out of order at every table. */
  lemma CardsOutOfOrder(n: nat, rand: Rand, cardId: int, used: Seats, seat: nat, rands: Rands)
    requires n == CARDS && Same(rand) && seat < SEATS && used[seat]
    ensures exists x :: ReshufflesInto(Opened(n, rand, cardId, used, seat), rands, x) && !Sound(x)
  {
    hide Opened, Shuffle, Sound, ReshufflesInto;
    SameShuffle(n, rand);
    OpenedDiscard(n, rand, cardId, used, seat);
    FirstReshuffle(n, rand, cardId, used, seat, rands);
  }

  // ---------------------------------------------------------------------
  // A player caught after having left
  // ---------------------------------------------------------------------

  /** Player `u` has only cards with a number on them, no call is pending, and the pile
      has cards enough. */
  ghost predicate Calm(g: Game, u: nat) {
    && Inv(g) && !g.over && !g.stuck && !g.reshuffled && u < SEATS && g.left >= 2 && g.players >= 3
    && Quiet(g) && !g.isUno[u] && forall c :: c in g.hands[u] ==> 0 <= c < 76
  }

  /** A plain card played: the player has one card less, and nothing else happens. */
  lemma PlayPlain(g: Game, u: nat, c: int, rands: Rands)
    requires Calm(g, u) && Active(g.sizes, u) && g.sizes[u] >= 2 && c in g.hands[u]
    ensures var e := Play(u, Face(c), rands);
      Enabled(g, e) && var h := Step(g, e); Calm(h, u) && h.sizes == g.sizes[u := g.sizes[u] - 1]
  {
    hide CardsOk, NextSeat, TurnOk, Find, Face;
    StepKeepsInv(g, Play(u, Face(c), rands));
    FindsPlain(g.hands[u], c);
  }

  lemma FindsPlain(hand: set<int>, c: int)
    requires c in hand && forall c :: c in hand ==> 0 <= c < 76
    ensures var r := Find(hand, Wanted(Face(c)), 0); r.Some? && r.value in hand
  {
    hide Find;
    assert Wanted(Face(c)) == Face(c);
  }

  lemma HandCounted(g: Game, u: nat)
    requires Calm(g, u) && Active(g.sizes, u)
    ensures g.sizes[u] == |g.hands[u]| && g.sizes[u] >= 1
  {
  }

  lemma SomeCard<T>(h: set<T>) returns (c: T)
    requires |h| > 0
    ensures c in h
  {
    c :| c in h;
  }

  /** The players and the hand of player `u` are not what `player_num` and `hand_num` say. */
  ghost predicate Miscounted(x: Game) {
    Shaped(x) && !x.over && !x.stuck && !x.reshuffled && !TurnOk(x) && !Counted(x)
  }

  /** Player `u` plays until one card is left, and is caught. */
  lemma {:induction false} PlaysDown(g: Game, i: nat, u: nat, stamp: int, rands: Rands)
    requires Calm(g, u) && Active(g.sizes, u)
    requires i < u && Active(g.sizes, i) && stamp < LONG_MAX
    ensures exists run, x :: Reaches(g, run, x) && InRounds(run, 0) && Miscounted(x)
    decreases g.sizes[u]
  {
    hide Calm, Step, Enabled, Miscounted, InRounds, Quiet;
    CalmIs(g, u);
    HandCounted(g, u);
    if g.sizes[u] == 1 {
      CaughtBreaks(g, i, u, stamp, rands);
    } else {
      var c := SomeCard(g.hands[u]);
      var e := Play(u, Face(c), rands);
      PlayPlain(g, u, c, rands);
      var h := Step(g, e);
      CalmIs(h, u);
      PlaysDown(h, i, u, stamp, rands);
      var run, x :| Reaches(h, run, x) && InRounds(run, 0) && Miscounted(x);
      RoundOfOne(g, e, rands, run, x);
    }
  }

  lemma CalmIs(g: Game, u: nat)
    requires Calm(g, u)
    ensures Shaped(g) && u < SEATS && (forall c :: c in g.hands[u] ==> 0 <= c < 76) && Inv(g) && g.left >= 2
    ensures Quiet(g) && !g.over && !g.stuck && !g.reshuffled
  {
    hide CardsOk, TurnOk;
  }

  lemma {:induction false} GiveSupplied(g: Game, seat: nat, n: nat, rands: Rands)
    requires Shaped(g) && seat < SEATS && !g.stuck && g.left >= n
    ensures var h := Give(g, seat, n, rands); !h.stuck && h.reshuffled == g.reshuffled
    decreases n
  {
    if n > 0 {
      GiveSupplied(Take(g, seat), seat, n - 1, rands);
    }
  }

  /** The three events of `UnoCalls.CaughtAfterLeaving`, and what they leave behind. */
  lemma CaughtBreaks(g: Game, i: nat, u: nat, stamp: int, rands: Rands)
    requires Calm(g, u) && g.sizes[u] == 1 && i < u && Active(g.sizes, i) && stamp < LONG_MAX
    ensures exists run, x :: Reaches(g, run, x) && InRounds(run, 0) && Miscounted(x)
  {
    hide Inv, CardsOk, TurnOk, NextSeat, Give, Fastest;
    CaughtAfterLeaving(g, i, u, stamp, rands);
    var e, l, j := Accuse(i, Some(u), stamp), Leave(u), EndRound(rands);
    var a := Step(g, e);
    var b := Step(a, l);
    StepKeepsInv(g, e);
    StepKeepsInv(a, l);
    UnfairBreaks(b, j);
    UnfairMiscounts(b, j);
    GiveSupplied(b, b.call.value, 2, rands);
    GiveGoesOn(b, b.call.value, 2, rands);
    ReachesOne(g, e);
    ReachesSnoc(g, [e], a, l);
    ReachesSnoc(g, [e] + [l], b, j);
    ThreeInRounds(e, l, j);
    assert Miscounted(Step(b, j));
  }

  lemma ThreeInRounds(a: Event, b: Event, c: Event)
    requires !a.EndRound? && !b.EndRound? && a.i < b.i && c.EndRound?
    ensures InRounds([a] + [b] + [c], 0)
  {
    var run := [a] + [b] + [c];
    assert [c][1..] == [] && InRounds([c], b.i + 1);
    assert run[1..][1..] == [c] && InRounds(run[1..], a.i + 1);
  }

  lemma {:induction false} GiveGoesOn(g: Game, seat: nat, n: nat, rands: Rands)
    requires Shaped(g) && seat < SEATS
    ensures Give(g, seat, n, rands).over == g.over
    decreases n
  {
    hide Draw;
    if n > 0 && !g.stuck {
      DrawGrows(g, seat, rands(n));
      GiveGoesOn(Draw(g, seat, rands(n)), seat, n - 1, rands);
    }
  }

  lemma SamePlain(used: Seats, cardId: int, u: nat)
    requires u < SEATS && used[u] && Rank(used, u) >= 5
    ensures forall c :: c in Deal(Iota(CARDS), cardId, used, SEATS).hands[u] ==> 0 <= c < 76
  {
    hide Deal;
    DealtCards(Iota(CARDS), cardId, used, SEATS, u);
  }

  lemma OpenedCalm(n: nat, rand: Rand, cardId: int, used: Seats, seat: nat, u: nat)
    requires n == CARDS && Same(rand) && seat < SEATS && used[seat] && u < SEATS && used[u] && Rank(used, u) >= 5
    ensures var g := Opened(n, rand, cardId, used, seat);
      Calm(g, u) && forall s :: 0 <= s < SEATS ==> (Active(g.sizes, s) <==> used[s])
  {
    hide Conserved, Shuffle, Wilds, Deal, TurnUp, Inv;
    FreshConserved(n, rand, cardId);
    SameShuffle(n, rand);
    SamePlain(used, cardId, u);
    var d := Deal(Shuffle(n, rand), cardId, used, SEATS);
    DealConserves(Shuffle(n, rand), cardId, used, SEATS);
    DealQuiet(Shuffle(n, rand), cardId, used, SEATS);
    EightWilds(d);
    TurnUpEnds(d);
    RankGrows(used, u, SEATS);
    OpenedInv(n, rand, cardId, used, seat);
  }

  /** At a table where five sit below `u` the shuffle can be such that a game comes to it:
      then `player_num` and a `hand_num` are wrong while the game goes on. */
  lemma CaughtInPlay(n: nat, rand: Rand, cardId: int, used: Seats, seat: nat, i: nat, u: nat, stamp: int,
                     rands: Rands)
    requires n == CARDS && Same(rand) && seat < SEATS && used[seat]
    requires i < u < SEATS && used[i] && used[u] && Rank(used, u) >= 5 && stamp < LONG_MAX
    ensures exists run, x ::
      Reaches(Opened(n, rand, cardId, used, seat), run, x) && InRounds(run, 0) && Miscounted(x)
  {
    hide Opened, Calm, Miscounted, InRounds;
    OpenedCalm(n, rand, cardId, used, seat, u);
    PlaysDown(Opened(n, rand, cardId, used, seat), i, u, stamp, rands);
  }
}

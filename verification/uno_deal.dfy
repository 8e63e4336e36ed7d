/** The opening of the UNO game (tcpcliserv/final_server.c:285-335): seven cards for each
    player, a card for the table that is not wild, and the player who begins. */
module UnoDeal {
  import opened Wrappers
  import opened UnoTurn
  import opened UnoSpec
  import opened UnoCalls

  const HAND: nat := 7

  type Seats = u: seq<bool> | |u| == SEATS witness seq(SEATS, _ => false)

  /** Before the deal. */
  function Fresh(pile: seq<int>, cardId: int): (g: Game)
    requires |pile| == CARDS
    ensures Shaped(g)
  {
    Game(seq(SEATS, _ => {}), seq(SEATS, _ => GONE), pile, CARDS, [], 0, 0, 0, cardId, 0,
         seq(SEATS, _ => false), None, seq(SEATS, _ => LONG_MAX), false, false, false)
  }

  /** One card from the end of the pile, not yet counted in `hand_num`. */
  function DealCard(g: Game, seat: nat): (h: Game)
    requires Shaped(g) && seat < SEATS && g.left > 0
    ensures Shaped(h)
  {
    g.(hands := g.hands[seat := g.hands[seat] + {g.pile[g.left - 1]}], left := g.left - 1)
  }

  function DealCards(g: Game, seat: nat, n: nat): (h: Game)
    requires Shaped(g) && seat < SEATS && n <= g.left
    ensures Shaped(h) && h.left == g.left - n && h.pile == g.pile
    decreases n
  {
    if n == 0 then g else DealCard(DealCards(g, seat, n - 1), seat)
  }

  function DealSeat(g: Game, seat: nat): (h: Game)
    requires Shaped(g) && seat < SEATS && HAND <= g.left
    ensures Shaped(h)
  {
    var f := DealCards(g, seat, HAND);
    f.(sizes := f.sizes[seat := 7])
  }

  /** The players at the first `i` seats. */
  function Rank(used: Seats, i: nat): (n: nat)
    requires i <= SEATS
    ensures n <= i
  {
    if i == 0 then 0 else Rank(used, i - 1) + if used[i - 1] then 1 else 0
  }

  lemma {:induction false} RankGrows(used: Seats, i: nat, j: nat)
    requires i <= j <= SEATS
    ensures Rank(used, i) <= Rank(used, j)
  {
    if i < j {
      RankGrows(used, i, j - 1);
    }
  }

  /** The first `i` seats have been served. */
  function Deal(pile: seq<int>, cardId: int, used: Seats, i: nat): (g: Game)
    requires |pile| == CARDS && i <= SEATS
    ensures Shaped(g) && g.left == CARDS - HAND * Rank(used, i) && g.pile == pile
  {
    if i == 0 then Fresh(pile, cardId)
    else
      var g := Deal(pile, cardId, used, i - 1);
      if used[i - 1] then DealSeat(g, i - 1) else g
  }

  /** Lines 315-321, from a pile that is not empty. */
  function TurnUp(g: Game): (h: Game)
    requires Shaped(g)
    ensures Shaped(h)
    decreases g.left
  {
    if g.left == 0 then g.(stuck := true)
    else
      var c := g.pile[g.left - 1];
      var f := g.(left := g.left - 1, table := c, discard := g.discard + [c]);
      if c < 100 then f else TurnUp(f)
  }

  // ---------------------------------------------------------------------
  // What is dealt
  // ---------------------------------------------------------------------

  lemma FreshConserved(n: nat, rand: Rand, cardId: int)
    requires n == CARDS
    ensures Conserved(Fresh(Shuffle(n, rand), cardId))
  {
    hide Count;
    var g := Fresh(Shuffle(n, rand), cardId);
    forall c | 0 <= c < CARDS ensures Places(g, c) == 1 {
      ShuffleIsPermutation(n, rand, c);
      NobodyHolds(SEATS, c);
      NothingYet(c);
    }
    forall k | 0 <= k < CARDS ensures 0 <= g.pile[k] < CARDS {
      ShuffleIsPermutation(n, rand, g.pile[k]);
      Occurs(g.pile, CARDS, k);
    }
  }

  lemma NothingYet(c: int)
    ensures Count([], 0, c) == 0
  {
  }

  lemma {:induction false} Occurs(a: seq<int>, n: nat, k: nat)
    requires k < n <= |a|
    ensures Count(a, n, a[k]) > 0
  {
    if k < n - 1 {
      Occurs(a, n - 1, k);
    }
  }

  lemma {:induction false} NobodyHolds(n: nat, c: int)
    ensures Held(seq(n, _ => {}), c) == 0
  {
    if n > 0 {
      NobodyHolds(n - 1, c);
      var e: seq<set<int>> := seq(n, _ => {});
      assert e[1..] == seq(n - 1, _ => {});
    }
  }

  /** A card of the deal moves from the pile into the hand like any other. */
  lemma DealCardConserves(g: Game, seat: nat)
    requires Shaped(g) && seat < SEATS && g.left > 0 && Conserved(g)
    ensures Conserved(DealCard(g, seat)) && |DealCard(g, seat).hands[seat]| == |g.hands[seat]| + 1
  {
    hide Held, Count;
    TakeConserves(g, seat);
    var t, h := Take(g, seat), DealCard(g, seat);
    assert forall c :: Places(t, c) == Places(h, c);
  }

  lemma {:induction false} DealCardsConserve(g: Game, seat: nat, n: nat)
    requires Shaped(g) && seat < SEATS && n <= g.left && Conserved(g)
    ensures var h := DealCards(g, seat, n);
      Conserved(h) && |h.hands[seat]| == |g.hands[seat]| + n && h == g.(hands := h.hands, left := h.left)
    ensures forall s :: 0 <= s < SEATS && s != seat ==> DealCards(g, seat, n).hands[s] == g.hands[s]
  {
    hide Conserved;
    if n > 0 {
      DealCardsConserve(g, seat, n - 1);
      DealCardConserves(DealCards(g, seat, n - 1), seat);
    }
  }

  lemma SizesDontMatter(g: Game, hn: Sizes)
    requires Shaped(g) && Conserved(g)
    ensures Conserved(g.(sizes := hn))
  {
    var h := g.(sizes := hn);
    forall c ensures Places(h, c) == Places(g, c) {
    }
  }

  lemma {:induction false} DealConserves(pile: seq<int>, cardId: int, used: Seats, i: nat)
    requires |pile| == CARDS && i <= SEATS && Conserved(Fresh(pile, cardId))
    ensures var g := Deal(pile, cardId, used, i);
      && Conserved(g) && g.discard == [] && !g.over && !g.stuck && !g.reshuffled && g.turn == 0
      && (forall s :: 0 <= s < SEATS ==> g.sizes[s] == if s < i && used[s] then 7 else GONE)
      && forall s :: 0 <= s < SEATS ==> |g.hands[s]| == if s < i && used[s] then HAND else 0
  {
    hide Conserved, DealCards;
    if i > 0 {
      DealConserves(pile, cardId, used, i - 1);
      var g := Deal(pile, cardId, used, i - 1);
      DealCardsConserve(g, i - 1, HAND);
      var f := DealCards(g, i - 1, HAND);
      SizesDontMatter(f, f.sizes[i - 1 := 7]);
    }
  }

  /** Which cards: the player at a seat gets the seven cards below those of the players
      before. */
  lemma {:induction false} DealtCards(pile: seq<int>, cardId: int, used: Seats, i: nat, s: nat)
    requires |pile| == CARDS && i <= SEATS && s < SEATS
    ensures var top := CARDS - HAND * Rank(used, s);
      HAND <= top && (Deal(pile, cardId, used, i).hands[s] ==
        if s < i && used[s] then Elements(pile[top - HAND..top]) else {})
  {
    hide DealCards;
    if i > 0 {
      DealtCards(pile, cardId, used, i - 1, s);
      if used[i - 1] {
        DealCardsAre(Deal(pile, cardId, used, i - 1), i - 1, HAND, s);
      }
    }
  }

  function Elements(a: seq<int>): set<int> {
    set x | x in a
  }

  lemma NoElements(a: seq<int>, i: nat)
    requires i <= |a|
    ensures Elements(a[i..i]) == {}
  {
  }

  lemma ElementsCons(x: int, a: seq<int>)
    ensures Elements([x] + a) == {x} + Elements(a)
  {
    assert forall y :: y in [x] + a <==> y == x || y in a;
  }

  lemma {:induction false} DealCardsAre(g: Game, seat: nat, n: nat, s: nat)
    requires Shaped(g) && seat < SEATS && n <= g.left && s < SEATS
    ensures DealCards(g, seat, n).hands[s] ==
      if s == seat then g.hands[s] + Elements(g.pile[g.left - n..g.left]) else g.hands[s]
  {
    hide Elements;
    if n == 0 {
      NoElements(g.pile, g.left);
    } else {
      DealCardsAre(g, seat, n - 1, s);
      ElementsCons(g.pile[g.left - n], g.pile[g.left - n + 1..g.left]);
      assert g.pile[g.left - n..g.left] == [g.pile[g.left - n]] + g.pile[g.left - n + 1..g.left];
    }
  }

  // ---------------------------------------------------------------------
  // The card on the table
  // ---------------------------------------------------------------------

  /** The wild cards among the first `n`. */
  function Wilds(a: seq<int>, n: nat): nat
    requires n <= |a|
  {
    if n == 0 then 0 else Wilds(a, n - 1) + if a[n - 1] >= 100 then 1 else 0
  }

  lemma {:induction false} WildsAre(a: seq<int>, n: nat)
    requires n <= |a| && forall k :: 0 <= k < n ==> a[k] < CARDS
    ensures Wilds(a, n) == Count(a, n, 100) + Count(a, n, 101) + Count(a, n, 102) + Count(a, n, 103)
                         + Count(a, n, 104) + Count(a, n, 105) + Count(a, n, 106) + Count(a, n, 107)
  {
    if n > 0 {
      WildsAre(a, n - 1);
    }
  }

  /** There are eight wild cards, so at most eight in the pile. */
  lemma EightWilds(g: Game)
    requires Shaped(g) && Conserved(g)
    ensures Wilds(g.pile, g.left) <= 8
  {
    hide Held, Count;
    WildsAre(g.pile, g.left);
    assert Places(g, 100) == Places(g, 101) == Places(g, 102) == Places(g, 103) == 1;
    assert Places(g, 104) == Places(g, 105) == Places(g, 106) == Places(g, 107) == 1;
  }

  lemma TurnUpMoves(g: Game, c: int)
    requires Shaped(g) && g.left > 0
    ensures var f := g.(left := g.left - 1, table := g.pile[g.left - 1], discard := g.discard + [g.pile[g.left - 1]]);
      Places(f, c) == Places(g, c)
  {
    hide Held;
    CountAppend(g.discard, |g.discard|, g.pile[g.left - 1], c);
  }

  /** From a pile with more cards than wild ones the loop finds a card for the table, and
      draws no more than one card beyond those wild cards. */
  lemma {:induction false} TurnUpEnds(g: Game)
    requires Shaped(g) && Conserved(g) && Wilds(g.pile, g.left) < g.left && !g.stuck
    ensures var h := TurnUp(g);
      && !h.stuck && 0 <= h.table < 100 && h.left >= g.left - Wilds(g.pile, g.left) - 1
      && Conserved(h) && |h.discard| > 0 && h.discard[|h.discard| - 1] == h.table
      && h == g.(left := h.left, table := h.table, discard := h.discard)
    decreases g.left
  {
    hide Places;
    var c := g.pile[g.left - 1];
    var f := g.(left := g.left - 1, table := c, discard := g.discard + [c]);
    forall k | 0 <= k < CARDS ensures Places(f, k) == 1 {
      TurnUpMoves(g, k);
    }
    assert Conserved(f);
    if c >= 100 {
      TurnUpEnds(f);
    }
  }

  // ---------------------------------------------------------------------
  // Who begins
  // ---------------------------------------------------------------------

  /** The players in the game at the first `i` seats. */
  function ActiveBefore(hn: Sizes, i: nat): set<int> {
    set s | s in ActiveSeats(hn) && s < i
  }

  lemma BeforeStep(hn: Sizes, i: nat)
    requires i < SEATS
    ensures ActiveBefore(hn, i + 1) == ActiveBefore(hn, i) + (if Active(hn, i) then {i} else {})
    ensures i !in ActiveBefore(hn, i)
  {
  }

  lemma BeforeEnds(hn: Sizes)
    ensures ActiveBefore(hn, 0) == {} && ActiveBefore(hn, SEATS) == ActiveSeats(hn)
  {
  }

  lemma {:induction false} RankIs(used: Seats, hn: Sizes, i: nat)
    requires i <= SEATS && forall s :: 0 <= s < SEATS ==> (Active(hn, s) <==> used[s])
    ensures Rank(used, i) == |ActiveBefore(hn, i)|
  {
    hide ActiveBefore;
    BeforeEnds(hn);
    if i > 0 {
      RankIs(used, hn, i - 1);
      BeforeStep(hn, i - 1);
    }
  }

  /** The opened game: at least two players, one of them to begin. */
  function Opened(n: nat, rand: Rand, cardId: int, used: Seats, seat: nat): (g: Game)
    requires n == CARDS && seat < SEATS
    ensures Shaped(g)
  {
    TurnUp(Deal(Shuffle(n, rand), cardId, used, SEATS)).(seat := seat, players := Rank(used, SEATS))
  }

  /** Every opened game satisfies the invariant, with at most nine cards turned up. */
  lemma OpenedInv(n: nat, rand: Rand, cardId: int, used: Seats, seat: nat)
    requires n == CARDS && seat < SEATS && used[seat]
    ensures var g := Opened(n, rand, cardId, used, seat);
      Inv(g) && !g.over && !g.stuck && !g.reshuffled && 0 <= g.table < 100 && 1 <= |g.discard| <= 9
  {
    hide Conserved, Count, Shuffle, Wilds, Deal, TurnUp;
    FreshConserved(n, rand, cardId);
    var d := Deal(Shuffle(n, rand), cardId, used, SEATS);
    DealConserves(Shuffle(n, rand), cardId, used, SEATS);
    EightWilds(d);
    TurnUpEnds(d);
    TurnUpCount(d);
    var g := Opened(n, rand, cardId, used, seat);
    RankIs(used, g.sizes, SEATS);
    BeforeEnds(g.sizes);
    SeatDoesNotMatter(TurnUp(d), seat, Rank(used, SEATS));
  }

  lemma SeatDoesNotMatter(g: Game, seat: nat, players: int)
    requires Shaped(g) && seat < SEATS && Conserved(g)
    ensures Conserved(g.(seat := seat, players := players))
  {
    var h := g.(seat := seat, players := players);
    forall c ensures Places(h, c) == Places(g, c) {
    }
  }

  lemma {:induction false} TurnUpCount(g: Game)
    requires Shaped(g)
    ensures |TurnUp(g).discard| + TurnUp(g).left == |g.discard| + g.left
    decreases g.left
  {
    if g.left > 0 {
      var c := g.pile[g.left - 1];
      TurnUpCount(g.(left := g.left - 1, table := c, discard := g.discard + [c]));
    }
  }

  /** In every game, until the first reshuffle, every card is in exactly one place; and the
      turn is with a player while the game lasts. If nobody is caught after having left,
      every hand is counted right, and so are the players. */
  lemma EveryGame(n: nat, rand: Rand, cardId: int, used: Seats, seat: nat, run: seq<Event>, h: Game)
    requires n == CARDS && seat < SEATS && used[seat] && Reaches(Opened(n, rand, cardId, used, seat), run, h)
    ensures Shaped(h) && (!h.reshuffled ==> Conserved(h))
    ensures !h.over && !h.stuck ==> Active(h.sizes, h.seat) && AllHaveCards(h.sizes)
    ensures FairRun(Opened(n, rand, cardId, used, seat), run) ==>
      (!h.reshuffled ==> Counted(h) && !h.stuck) && h.players == |ActiveSeats(h.sizes)|
  {
    hide Conserved, Counted, Opened, Step, Enabled, ActiveSeats, Fair;
    var g := Opened(n, rand, cardId, used, seat);
    OpenedInv(n, rand, cardId, used, seat);
    InvSteady(g);
    RunKeeps(g, run, h);
    RunSteady(g, run, h);
    if FairRun(g, run) {
      RunKeepsInv(g, run, h);
    }
  }

  /** And the players are counted right in every state exactly then. */
  lemma EveryGameExactly(n: nat, rand: Rand, cardId: int, used: Seats, seat: nat, run: seq<Event>)
    requires n == CARDS && seat < SEATS && used[seat] && Goes(Opened(n, rand, cardId, used, seat), run)
    ensures FairRun(Opened(n, rand, cardId, used, seat), run) <==>
      AlwaysTurnOk(Opened(n, rand, cardId, used, seat), run)
  {
    hide Opened, Inv, Goes;
    OpenedInv(n, rand, cardId, used, seat);
    FairExactly(Opened(n, rand, cardId, used, seat), run);
  }

  /** Likewise the hands: until the first reshuffle `hand_num` counts them right in every
      state if and only if nobody is caught after having left. */
  lemma EveryHandExactly(n: nat, rand: Rand, cardId: int, used: Seats, seat: nat, run: seq<Event>)
    requires n == CARDS && seat < SEATS && used[seat] && Comes(Opened(n, rand, cardId, used, seat), run)
    ensures FairUntil(Opened(n, rand, cardId, used, seat), run) <==>
      AlwaysCounted(Opened(n, rand, cardId, used, seat), run)
  {
    hide Opened, Inv, Comes;
    OpenedInv(n, rand, cardId, used, seat);
    CountedExactly(Opened(n, rand, cardId, used, seat), run);
  }
}

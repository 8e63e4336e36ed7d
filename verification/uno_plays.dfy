/** What every message of a UNO game (tcpcliserv/final_server.c:382-654) does to hands,
    counts and turn, in numbers. */
module UnoPlays {
  import opened Wrappers
  import opened UnoTurn
  import opened UnoSpec
  import opened UnoCalls

  // ---------------------------------------------------------------------
  // Turns
  // ---------------------------------------------------------------------

  /** Only who is in the game matters for the turn. */
  lemma NextSame(w: nat, a: Sizes, b: Sizes, turn: int)
    requires w < SEATS && forall s :: 0 <= s < SEATS ==> (Active(a, s) <==> Active(b, s))
    ensures NextSeat(w, a, turn) == NextSeat(w, b, turn)
  {
    GapIs(w, b, turn, Gap(w, a, turn));
  }

  /** Direction 0 goes up the seats and from the last to the first, direction 1 down. */
  lemma NextInDirection(w: nat, hn: Sizes, turn: int, s: nat)
    requires w < SEATS && s < SEATS && Active(hn, s) && (turn == 0 || turn == 1)
    requires turn == 0 ==>
      if w < s then forall k :: w < k < s ==> !Active(hn, k)
      else forall k :: 0 <= k < SEATS && (k < s || w < k) ==> !Active(hn, k)
    requires turn == 1 ==>
      if s < w then forall k :: s < k < w ==> !Active(hn, k)
      else forall k :: 0 <= k < SEATS && (k < w || s < k) ==> !Active(hn, k)
    ensures NextSeat(w, hn, turn) == s
  {
    var g := if turn == 0 then if w < s then s - w else SEATS + s - w
             else if s < w then w - s else SEATS + w - s;
    GapIs(w, hn, turn, g);
  }

  lemma TwoTurns(w: nat, a: Sizes, b: Sizes, turn: int)
    requires w < SEATS && forall s :: 0 <= s < SEATS ==> (Active(a, s) <==> Active(b, s))
    ensures Turns(w, a, turn, 0) == w && Turns(w, a, turn, 1) == NextSeat(w, b, turn)
    ensures Turns(w, a, turn, 2) == NextSeat(NextSeat(w, b, turn), b, turn)
  {
    hide NextSeat;
    assert Turns(w, a, turn, 1) == NextSeat(Turns(w, a, turn, 0), a, turn);
    NextSame(w, a, b, turn);
    NextSame(NextSeat(w, a, turn), a, b, turn);
  }

  // ---------------------------------------------------------------------
  // Draws
  // ---------------------------------------------------------------------

  /** A draw changes the pile, one hand with its count, and that player's call. */
  predicate OnlyDraws(g: Game, seat: nat, h: Game)
    requires Shaped(g) && Shaped(h) && seat < SEATS
  {
    && h == g.(hands := h.hands, sizes := h.sizes, pile := h.pile, left := h.left, isUno := h.isUno,
               reshuffled := h.reshuffled, stuck := h.stuck)
    && (forall s :: 0 <= s < SEATS && s != seat ==>
          h.hands[s] == g.hands[s] && h.sizes[s] == g.sizes[s] && h.isUno[s] == g.isUno[s])
    && g.hands[seat] <= h.hands[seat]
  }

  lemma DrawFrame(g: Game, seat: nat, rand: Rand)
    requires Shaped(g) && seat < SEATS
    ensures var h := Draw(g, seat, rand);
      OnlyDraws(g, seat, h) && (!h.stuck && !g.stuck ==> !h.isUno[seat])
  {
    hide Shuffle, Unheld;
  }

  lemma {:induction false} GiveFrame(g: Game, seat: nat, n: nat, rands: Rands)
    requires Shaped(g) && seat < SEATS && !g.stuck
    ensures var h := Give(g, seat, n, rands);
      && OnlyDraws(g, seat, h)
      && (!h.stuck ==> h.sizes == g.sizes[seat := g.sizes[seat] + n] && (n > 0 ==> !h.isUno[seat]))
    decreases n
  {
    hide Draw;
    if n > 0 {
      var f := Draw(g, seat, rands(n));
      DrawFrame(g, seat, rands(n));
      DrawCounts(g, seat, rands(n));
      if !f.stuck {
        GiveFrame(f, seat, n - 1, rands);
      }
    }
  }

  // ---------------------------------------------------------------------
  // Cards
  // ---------------------------------------------------------------------

  /** The cards of one value, as the source lists them. */
  function Eight(v: char): (s: seq<string>)
    ensures |s| == 8
  {
    [[v, 'r'], [v, 'r'], [v, 'y'], [v, 'y'], [v, 'g'], [v, 'g'], [v, 'b'], [v, 'b']]
  }

  /** The faces are those of the source's list: four zeros, eight each of nine numbers, of
      skip, reverse and draw two, and four each of the wild cards. */
  lemma FaceIsListed(id: int)
    requires 0 <= id < CARDS
    ensures id < 4 ==> [Face(id).0, Face(id).1] == ["0r", "0y", "0g", "0b"][id]
    ensures 4 <= id < 100 ==>
      [Face(id).0, Face(id).1] ==
        Eight(['1', '2', '3', '4', '5', '6', '7', '8', '9', 'a', 'b', 'c'][(id - 4) / 8])[(id - 4) % 8]
    ensures 100 <= id ==> [Face(id).0, Face(id).1] == ["dx", "dx", "dx", "dx", "ex", "ex", "ex", "ex"][id - 100]
  {
  }

  /** Card `c` is what a message means by `name`: by its face, or, wild, by its kind alone. */
  predicate Means(name: (char, char), c: int)
    requires 0 <= c < CARDS
  {
    if c < 100 then name == Face(c) else name.0 == if c < 104 then 'd' else 'e'
  }

  /** The first such card of a hand. */
  ghost predicate FirstOf(hand: set<int>, name: (char, char), c: int) {
    0 <= c < CARDS && c in hand && Means(name, c) && forall d :: 0 <= d < c && d in hand ==> !Means(name, d)
  }

  lemma MeansWanted(name: (char, char), c: int)
    requires 0 <= c < CARDS
    ensures Means(name, c) <==> Face(c) == Wanted(name)
  {
  }

  lemma FindsFirst(hand: set<int>, name: (char, char), c: int)
    ensures FirstOf(hand, name, c) ==> Find(hand, Wanted(name), 0) == Some(c)
    ensures (forall d :: 0 <= d < CARDS && d in hand ==> !Means(name, d)) ==> Find(hand, Wanted(name), 0) == None
  {
    hide Face, Wanted, Find, Means;
    var r := Find(hand, Wanted(name), 0);
    if r.Some? {
      MeansWanted(name, r.value);
    }
    if 0 <= c < CARDS {
      MeansWanted(name, c);
    }
  }

  // ---------------------------------------------------------------------
  // A card is played
  // ---------------------------------------------------------------------

  /** The card on the table does this, from `f`, in numbers. */
  lemma EffectIs(f: Game, rands: Rands)
    requires Steady(f) && !f.over && !f.stuck
    ensures var h, c := Effect(f, rands), f.table;
      var v := Turns(f.seat, f.sizes, f.turn, 1);
      && (76 <= c < 84 ==> h == f.(seat := Turns(f.seat, f.sizes, f.turn, 2)))
      && (84 <= c < 92 ==>
        h == f.(turn := 1 - f.turn, seat := if f.players > 2 then Turns(f.seat, f.sizes, 1 - f.turn, 1) else f.seat))
      && (92 <= c < 100 && !h.stuck ==>
        && h.sizes == f.sizes[v := f.sizes[v] + 2] && h.seat == Turns(f.seat, f.sizes, f.turn, 2)
        && OnlyDraws(f, v, h.(seat := f.seat)))
      && (104 <= c < 108 && !h.stuck ==>
        && h.sizes == f.sizes[v := f.sizes[v] + 4] && h.seat == Turns(f.seat, f.sizes, f.turn, 2)
        && OnlyDraws(f, v, h.(seat := f.seat)))
      && (!(76 <= c < 100) && !(104 <= c < 108) ==> h == f.(seat := v))
  {
    hide NextSeat, Give, Turns, ActiveSeats, OnlyDraws;
    var c := f.table;
    TwoTurns(f.seat, f.sizes, f.sizes, f.turn);
    TwoTurns(f.seat, f.sizes, f.sizes, 1 - f.turn);
    if 92 <= c < 100 {
      PunishIs(f, 2, rands);
    } else if 104 <= c < 108 {
      PunishIs(f, 4, rands);
    }
  }

  lemma PunishIs(f: Game, n: nat, rands: Rands)
    requires Steady(f) && !f.over && !f.stuck
    ensures var h := Punish(f, n, rands);
      var v := Turns(f.seat, f.sizes, f.turn, 1);
      !h.stuck ==>
        && h.sizes == f.sizes[v := f.sizes[v] + n] && h.seat == Turns(f.seat, f.sizes, f.turn, 2)
        && OnlyDraws(f, v, h.(seat := f.seat))
  {
    hide NextSeat, Give, Turns, ActiveSeats;
    TwoTurns(f.seat, f.sizes, f.sizes, f.turn);
    var a := Advance(f);
    AdvanceSteady(f);
    GiveFrame(a, a.seat, n, rands);
    var b := Give(a, a.seat, n, rands);
    if !b.stuck {
      NextSame(a.seat, f.sizes, b.sizes, f.turn);
    }
  }

  /** A card of the hand, others being left: it goes from the hand to the table, and does
      what it says. The counts are those before but for this card and the cards drawn. */
  lemma PlayExactly(g: Game, i: nat, name: (char, char), rands: Rands, c: int)
    requires Steady(g) && Enabled(g, Play(i, name, rands)) && FirstOf(g.hands[i], name, c) && g.sizes[i] >= 2
    ensures var h := Step(g, Play(i, name, rands));
      var left := g.sizes[i := g.sizes[i] - 1];
      var v := Turns(g.seat, g.sizes, g.turn, 1);
      && !h.over && h.table == c && h.cardId == c && h.discard == g.discard + [c] && h.players == g.players
      && (76 <= c < 84 ==>
        h.sizes == left && h.seat == Turns(g.seat, g.sizes, g.turn, 2) && h.turn == g.turn && h.left == g.left)
      && (84 <= c < 92 ==>
        && h.sizes == left && h.turn == 1 - g.turn && h.left == g.left
        && h.seat == if g.players > 2 then Turns(g.seat, g.sizes, 1 - g.turn, 1) else g.seat)
      && (92 <= c < 100 && !h.stuck ==>
        h.sizes == left[v := left[v] + 2] && h.seat == Turns(g.seat, g.sizes, g.turn, 2) && h.turn == g.turn)
      && (104 <= c < 108 && !h.stuck ==>
        h.sizes == left[v := left[v] + 4] && h.seat == Turns(g.seat, g.sizes, g.turn, 2) && h.turn == g.turn)
      && (c < 76 || 100 <= c < 104 ==> h.sizes == left && h.seat == v && h.turn == g.turn && h.left == g.left)
  {
    hide Find, Effect, Turns, ActiveSeats, FirstOf, Steady;
    FindsFirst(g.hands[i], name, c);
    PutDownSteady(g, i, name);
    var f := PutDown(g, i, name);
    CardOf(g.hands[i], name, c);
    SameTurns(g, f);
    EffectIs(f, rands);
    EffectFrame(f, rands);
  }

  lemma CardOf(hand: set<int>, name: (char, char), c: int)
    requires FirstOf(hand, name, c)
    ensures 0 <= c < CARDS && c in hand
  {
    hide Means;
  }

  lemma SameTurns(g: Game, f: Game)
    requires Shaped(g) && Shaped(f) && f.seat == g.seat
    requires forall s :: 0 <= s < SEATS ==> (Active(f.sizes, s) <==> Active(g.sizes, s))
    ensures forall m, turn :: 0 <= m <= 2 ==> Turns(f.seat, f.sizes, turn, m) == Turns(g.seat, g.sizes, turn, m)
  {
    hide NextSeat, Turns;
    forall m, turn | 0 <= m <= 2 ensures Turns(f.seat, f.sizes, turn, m) == Turns(g.seat, g.sizes, turn, m) {
      TwoTurns(f.seat, f.sizes, g.sizes, turn);
      TwoTurns(g.seat, g.sizes, g.sizes, turn);
    }
  }

  /** What no card changes. */
  lemma EffectFrame(f: Game, rands: Rands)
    requires Steady(f) && !f.over && !f.stuck
    ensures var h := Effect(f, rands);
      && h.over == f.over && (h.table, h.cardId, h.discard, h.players) == (f.table, f.cardId, f.discard, f.players)
      && (h.turn == f.turn || 84 <= f.table < 92) && (h.call, h.stamps) == (f.call, f.stamps)
  {
    hide NextSeat, Give, ActiveSeats;
    var a := Advance(f);
    GiveFrame(a, a.seat, 2, rands);
    GiveFrame(a, a.seat, 4, rands);
  }

  /** The last card of a hand wins; a card that is not there leaves the hands as they are,
      and the card played before does its work again. */
  lemma LastOrNoCard(g: Game, i: nat, name: (char, char), rands: Rands, c: int)
    requires Steady(g) && Enabled(g, Play(i, name, rands))
    ensures var h := Step(g, Play(i, name, rands));
      FirstOf(g.hands[i], name, c) && g.sizes[i] == 1 ==>
        h == g.(over := true, hands := g.hands[i := g.hands[i] - {c}], sizes := g.sizes[i := 0],
                cardId := c, table := c, discard := g.discard + [c])
    ensures var h := Step(g, Play(i, name, rands));
      (forall d :: 0 <= d < CARDS && d in g.hands[i] ==> !Means(name, d)) ==>
        h == Effect(g.(table := g.cardId), rands) && h.discard == g.discard && !h.over
  {
    hide Find, Turns, ActiveSeats, Effect, Means, FirstOf;
    FindsFirst(g.hands[i], name, c);
    if Find(g.hands[i], Wanted(name), 0) == None {
      EffectFrame(g.(table := g.cardId), rands);
    }
  }

  // ---------------------------------------------------------------------
  // The other messages
  // ---------------------------------------------------------------------

  /** Whoever has the turn draws one card, and the turn goes on. */
  lemma SkipExactly(g: Game, i: nat, rands: Rands)
    requires Steady(g) && Enabled(g, Skip(i, rands))
    ensures var h := Step(g, Skip(i, rands));
      !h.stuck ==>
        && h.sizes == g.sizes[g.seat := g.sizes[g.seat] + 1] && h.seat == Turns(g.seat, g.sizes, g.turn, 1)
        && !h.isUno[g.seat] && OnlyDraws(g, g.seat, h.(seat := g.seat))
  {
    hide NextSeat, Give, Turns, ActiveSeats;
    GiveFrame(g, g.seat, 1, rands);
    var f := Give(g, g.seat, 1, rands);
    if !f.stuck {
      TwoTurns(g.seat, g.sizes, f.sizes, g.turn);
    }
  }

  /** A false call costs its sender two cards; the turn stays where it is. */
  lemma PenaltyExactly(g: Game, i: nat, rands: Rands)
    requires Shaped(g) && Enabled(g, Penalty(i, rands))
    ensures var h := Step(g, Penalty(i, rands));
      && OnlyDraws(g, i, h)
      && (!h.stuck ==> h.sizes == g.sizes[i := g.sizes[i] + 2] && h.seat == g.seat && !h.isUno[i])
  {
    hide Give;
    GiveFrame(g, i, 2, rands);
  }

  /** A departure frees the seat; with one player left the game is over, and otherwise the
      turn moves exactly if it was the departed player's. */
  lemma LeaveExactly(g: Game, i: nat)
    requires Steady(g) && Enabled(g, Leave(i))
    ensures var h := Step(g, Leave(i));
      && h.sizes == g.sizes[i := GONE] && h.players == g.players - 1 && h.hands == g.hands && h.pile == g.pile
      && (h.over <==> g.players <= 2) && h.turn == g.turn && h.left == g.left && h.call == g.call
      && h.seat == (if i == g.seat && g.players > 2 then Turns(g.seat, h.sizes, g.turn, 1) else g.seat)
  {
    hide NextSeat, ActiveSeats;
    var f := g.sizes[i := GONE];
    TwoTurns(g.seat, f, f, g.turn);
  }

  /** A call for oneself counts with one card in hand that has not been called yet; the
      first stamp of a round stays. */
  lemma CallExactly(g: Game, i: nat, stamp: int)
    requires Shaped(g) && Enabled(g, CallUno(i, stamp))
    ensures var h := Step(g, CallUno(i, stamp));
      && (h.call == Some(i) <==> g.call == Some(i) || (g.sizes[i] == 1 && !g.isUno[i]))
      && (!(g.sizes[i] == 1 && !g.isUno[i]) ==> h == g)
      && h == g.(call := h.call, stamps := h.stamps)
      && h.stamps ==
        if g.sizes[i] == 1 && !g.isUno[i] && g.stamps[i] == LONG_MAX then g.stamps[i := stamp] else g.stamps
  {
  }

  /** An accusation concerns the pending call if there is one, else the player named; it
      counts under the same condition on that player, and drops the call otherwise. */
  lemma AccuseExactly(g: Game, i: nat, named: Option<nat>, stamp: int)
    requires Shaped(g) && Enabled(g, Accuse(i, named, stamp))
    ensures var h, u := Step(g, Accuse(i, named, stamp)), if g.call.Some? then g.call.value else named.value;
      && h == g.(call := h.call, stamps := h.stamps)
      && (g.sizes[u] == 1 && !g.isUno[u] ==>
        h.call == Some(u) && h.stamps == if g.stamps[i] == LONG_MAX then g.stamps[i := stamp] else g.stamps)
      && (!(g.sizes[u] == 1 && !g.isUno[u]) ==> h.call == None && h.stamps == g.stamps)
  {
  }

  /** At the end of a round the player called has been fastest and is safe until the next
      draw, or gets two cards; then there are no calls. */
  lemma EndExactly(g: Game, rands: Rands)
    requires Shaped(g) && Enabled(g, EndRound(rands))
    ensures var h := Step(g, EndRound(rands));
      && h.call == None && (forall k :: 0 <= k < SEATS ==> h.stamps[k] == LONG_MAX)
      && (g.call == None ==> h == g.(stamps := h.stamps))
      && (g.call.Some? ==>
        var u := g.call.value;
        var safe := (u == 0 || Active(g.sizes, u)) && g.stamps[u] <= g.stamps[0]
                    && forall k :: 0 <= k < SEATS && Active(g.sizes, k) ==> g.stamps[u] <= g.stamps[k];
        && (safe ==> h == g.(isUno := g.isUno[u := true], call := None, stamps := h.stamps))
        && (!safe && !h.stuck ==>
          && h.sizes == g.sizes[u := g.sizes[u] + 2] && !h.isUno[u]
          && OnlyDraws(g, u, h.(call := g.call, stamps := g.stamps))))
  {
    hide Give, Fastest;
    if g.call.Some? {
      FastestExactly(g, g.call.value);
      GiveFrame(g, g.call.value, 2, rands);
    }
  }
}

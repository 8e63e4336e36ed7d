/** One game of tcpcliserv/final_server.c on its own arrays: `shuffle`, the deal,
    `GiveCardToPlayer` and the messages, each proved to do what `UnoSpec` and `UnoDeal`
    describe. */
module UnoGame {
  import opened Wrappers
  import opened UnoTurn
  import opened UnoSpec
  import opened UnoCalls
  import opened UnoDeal

  lemma ExchangeStep(a: seq<int>, i: nat, rand: Rand)
    requires 0 < i < |a|
    ensures Exchanges(a, i, rand) == Exchanges(Swap(a, i, rand(i) % (i + 1)), i - 1, rand)
  {
  }

  lemma {:induction false} ExchangesFront(a: seq<int>, b: seq<int>, i: nat, rand: Rand)
    requires i < |a| || i == 0
    ensures Exchanges(a + b, i, rand) == Exchanges(a, i, rand) + b
    decreases i
  {
    if i > 0 {
      var j := rand(i) % (i + 1);
      assert Swap(a + b, i, j) == Swap(a, i, j) + b;
      ExchangesFront(Swap(a, i, j), b, i - 1, rand);
    }
  }

  /** Lines 150-167; `rand` gives the random number used at each place. */
  method ShuffleArray(a: array<int>, size: nat, rand: Rand)
    requires size <= a.Length
    modifies a
    ensures a[..] == Shuffle(size, rand) + old(a[..])[size..]
  {
    hide Exchanges;
    ghost var rest := a[size..];
    var i := 0;
    while i < size
      invariant i <= size && a[..i] == Iota(size)[..i] && a[size..] == rest
    {
      a[i] := i;
      i := i + 1;
    }
    assert a[..] == Iota(size) + rest;
    i := size - 1;
    ghost var top := if size == 0 then 0 else size - 1;
    while i > 0
      invariant -1 <= i < size || (size == 0 && i == -1)
      invariant Exchanges(a[..], if i < 0 then 0 else i, rand) == Exchanges(Iota(size) + rest, top, rand)
      decreases i
    {
      ghost var was := a[..];
      ExchangeStep(a[..], i, rand);
      var j := rand(i) % (i + 1);
      var temp := a[i];
      a[i] := a[j];
      a[j] := temp;
      assert a[..] == Swap(was, i, j);
      i := i - 1;
    }
    NoExchange(a[..], rand);
    ExchangesFront(Iota(size), rest, top, rand);
  }

  lemma NoExchange(a: seq<int>, rand: Rand)
    ensures Exchanges(a, 0, rand) == a
  {
  }

  /** How many of the first `n` numbers are in `u`. */
  function CountIn(u: set<int>, n: nat): nat {
    if n == 0 then 0 else CountIn(u, n - 1) + if n - 1 in u then 1 else 0
  }

  lemma {:induction false} CountInIs(u: set<int>, n: nat)
    ensures CountIn(u, n) == |u * Below(n)| <= n
  {
    hide Below;
    if n == 0 {
      assert u * Below(0) == {};
    } else {
      CountInIs(u, n - 1);
      var before := u * Below(n - 1);
      assert n - 1 !in before;
      if n - 1 in u {
        assert u * Below(n) == before + {n - 1};
      } else {
        assert u * Below(n) == before;
      }
    }
  }

  lemma CountAll(g: Game)
    requires Shaped(g)
    ensures CountIn(Unheld(g), CARDS) == |Unheld(g)| <= CARDS
  {
    CountInIs(Unheld(g), CARDS);
    assert Unheld(g) * Below(CARDS) == Unheld(g);
  }

  /** `adopted` marks cards, and none that are unheld. */
  predicate Marks(adopted: seq<int>, u: set<int>) {
    |adopted| == CARDS && forall q :: 0 <= q < CARDS ==> adopted[q] == 0 || (adopted[q] == 1 && q !in u)
  }

  /** Row `i` of the hands is the set `h`. */
  ghost predicate RowIs(hand: array2<int>, i: nat, h: set<int>)
    requires hand.Length1 == CARDS && i < hand.Length0
    reads hand
  {
    forall q :: 0 <= q < CARDS ==> if q in h then hand[i, q] == 1 else hand[i, q] == 0
  }

  predicate AllMarked(adopted: seq<int>, h: set<int>) {
    |adopted| == CARDS && forall q :: 0 <= q < CARDS && q in h ==> adopted[q] == 1
  }

  /** Lines 248-251: one player's cards. */
  method MarkRow(hand: array2<int>, j: nat, adopted: array<int>, ghost h: set<int>, ghost u: set<int>)
    requires hand.Length1 == CARDS && j < hand.Length0 && RowIs(hand, j, h)
    requires Marks(adopted[..], u) && h !! u
    modifies adopted
    ensures Marks(adopted[..], u) && AllMarked(adopted[..], h)
    ensures forall q :: 0 <= q < CARDS && old(adopted[q]) == 1 ==> adopted[q] == 1
  {
    for q := 0 to CARDS
      invariant forall p :: 0 <= p < CARDS ==> adopted[p] == 0 || (adopted[p] == 1 && p !in u)
      invariant forall p :: 0 <= p < q && p in h ==> adopted[p] == 1
      invariant forall p :: 0 <= p < CARDS && old(adopted[p]) == 1 ==> adopted[p] == 1
    {
      if hand[j, q] == 1 {
        assert q in h;
        adopted[q] := 1;
      }
    }
  }

  /** Lines 245-252: `adopted` then marks exactly the cards that are held. */
  method MarkHeld(hand: array2<int>, handNum: array<int>, adopted: array<int>, ghost g: Game)
    requires Shaped(g) && hand.Length0 == SEATS && hand.Length1 == CARDS
    requires handNum.Length == SEATS && adopted != handNum
    requires g.sizes == handNum[..] && forall i :: 0 <= i < SEATS ==> RowIs(hand, i, g.hands[i])
    requires Marks(adopted[..], Unheld(g))
    modifies adopted
    ensures Marks(adopted[..], Unheld(g))
    ensures forall q :: 0 <= q < CARDS ==> (adopted[q] == 0 <==> q in Unheld(g))
  {
    hide Unheld, Marks, AllMarked, RowIs;
    ghost var u := Unheld(g);
    for j := 0 to SEATS
      invariant Marks(adopted[..], u)
      invariant forall s :: 0 <= s < j && Active(g.sizes, s) ==> AllMarked(adopted[..], g.hands[s])
    {
      if handNum[j] == GONE {
        continue;
      }
      ghost var was := adopted[..];
      HeldAside(g, j);
      assert RowIs(hand, j, g.hands[j]);
      MarkRow(hand, j, adopted, g.hands[j], u);
      forall s | 0 <= s < j && Active(g.sizes, s) ensures AllMarked(adopted[..], g.hands[s]) {
        StillMarked(was, adopted[..], g.hands[s]);
      }
    }
    MarksExactly(adopted[..], g);
  }

  lemma HeldAside(g: Game, s: nat)
    requires Shaped(g) && s < SEATS && Active(g.sizes, s)
    ensures g.hands[s] !! Unheld(g)
  {
  }

  lemma StillMarked(was: seq<int>, now: seq<int>, h: set<int>)
    requires AllMarked(was, h) && |now| == CARDS && forall q :: 0 <= q < CARDS && was[q] == 1 ==> now[q] == 1
    ensures AllMarked(now, h)
  {
  }

  lemma MarksExactly(adopted: seq<int>, g: Game)
    requires Shaped(g) && Marks(adopted, Unheld(g))
    requires forall s :: 0 <= s < SEATS && Active(g.sizes, s) ==> AllMarked(adopted, g.hands[s])
    ensures |adopted| == CARDS && forall q :: 0 <= q < CARDS ==> (adopted[q] == 0 <==> q in Unheld(g))
  {
    forall q | 0 <= q < CARDS ensures adopted[q] == 0 <==> q in Unheld(g) {
      if q !in Unheld(g) {
        assert q in Below(CARDS);
        var s :| 0 <= s < SEATS && Active(g.sizes, s) && q in g.hands[s];
        assert AllMarked(adopted, g.hands[s]);
      }
    }
  }

  /** Lines 254-262: their number, and the rest of `card_seq` as it was. */
  method CollectUnheld(adopted: array<int>, cardSeq: array<int>, ghost u: set<int>) returns (n: nat)
    requires adopted.Length == cardSeq.Length == CARDS && adopted != cardSeq
    requires forall q :: 0 <= q < CARDS ==> (adopted[q] == 0 <==> q in u)
    modifies cardSeq
    ensures n == CountIn(u, CARDS) && n <= CARDS && cardSeq[n..] == old(cardSeq[..])[n..]
  {
    n := 0;
    for j := 0 to CARDS
      invariant n == CountIn(u, j) && n <= j && cardSeq[n..] == old(cardSeq[..])[n..]
    {
      if adopted[j] == 0 {
        ghost var was := cardSeq[n + 1..];
        cardSeq[n] := j;
        n := n + 1;
        assert cardSeq[n..] == was;
      }
    }
  }

  lemma ShuffledInRange(before: seq<int>, mid: seq<int>, now: seq<int>, k: nat, rand: Rand)
    requires |before| == |mid| == |now| == CARDS && k <= CARDS
    requires mid[k..] == before[k..] && now == Shuffle(k, rand) + mid[k..]
    requires forall i :: 0 <= i < CARDS ==> 0 <= before[i] < CARDS
    ensures now == Shuffle(k, rand) + before[k..]
    ensures forall i :: 0 <= i < CARDS ==> 0 <= now[i] < CARDS
  {
    hide Shuffle;
    forall i | 0 <= i < CARDS ensures 0 <= now[i] < CARDS {
      if i < k {
        ShuffleIsPermutation(k, rand, now[i]);
        Occurs(Shuffle(k, rand), k, i);
      } else {
        assert now[i] == before[k..][i - k];
      }
    }
  }

  lemma TakeShrinks(g: Game, seat: nat, adopted: seq<int>)
    requires Shaped(g) && seat < SEATS && g.left > 0 && g.sizes[seat] >= GONE
    requires Marks(adopted, Unheld(g))
    ensures Marks(adopted, Unheld(Take(g, seat)))
  {
    var h := Take(g, seat);
    assert Unheld(h) <= Unheld(g) by {
      forall q | q in Unheld(h) ensures q in Unheld(g) {
        forall s | 0 <= s < SEATS && Active(g.sizes, s) ensures q !in g.hands[s] {
          assert h.hands[s] >= g.hands[s] && Active(h.sizes, s);
        }
      }
    }
  }

  /** One more card, when there is one. */
  lemma GiveStep(g: Game, f: Game, seat: nat, n: nat, rands: Rands)
    requires Shaped(g) && Shaped(f) && seat < SEATS && n > 0 && !g.stuck
    requires f == if g.left == 0 then UnoSpec.Reshuffle(g, rands(n)) else g
    ensures f.left > 0 ==> Give(g, seat, n, rands) == Give(Take(f, seat), seat, n - 1, rands)
    ensures f.left == 0 ==> Give(g, seat, n, rands) == f.(stuck := true)
  {
    if f.left == 0 {
      assert Give(f.(stuck := true), seat, n - 1, rands) == f.(stuck := true);
    }
  }

  lemma GiveNone(g: Game, seat: nat, rands: Rands)
    requires Shaped(g) && seat < SEATS
    ensures Give(g, seat, 0, rands) == g
  {
  }

  lemma NoMarks(adopted: seq<int>, u: set<int>)
    requires |adopted| == CARDS && forall q :: 0 <= q < CARDS ==> adopted[q] == 0
    ensures Marks(adopted, u)
  {
  }

  /** Whoever has the turn can be given cards. */
  lemma HasCards(g: Game)
    requires Steady(g) && !g.over && !g.stuck
    ensures g.sizes[g.seat] >= 1
  {
  }

  lemma TurnUpStep(g: Game)
    requires Shaped(g) && g.left > 0 && Wilds(g.pile, g.left) < g.left
    ensures var c := g.pile[g.left - 1];
      var f := g.(left := g.left - 1, table := c, discard := g.discard + [c]);
      TurnUp(g) == (if c < 100 then f else TurnUp(f)) && (c >= 100 ==> Wilds(f.pile, f.left) < f.left)
  {
  }

  /** And so can anybody else, in the game or not. */
  lemma MayHaveCards(g: Game, i: nat)
    requires Steady(g) && !g.over && !g.stuck && i < SEATS
    ensures g.sizes[i] >= GONE
  {
  }

  lemma UnheldSame(g: Game, h: Game)
    requires Shaped(g) && Shaped(h) && g.hands == h.hands && g.sizes == h.sizes
    ensures Unheld(g) == Unheld(h)
  {
  }

  class Room {
    const hand: array2<int>
    const handNum: array<int>
    const cardSeq: array<int>
    const isUno: array<bool>
    const timeStamp: array<int>
    var haveUno: int                 // -1 when nobody has called
    var cardNum: nat
    var whoseRound: nat
    var turn: int
    var tableCard: int
    var cardId: int
    var playerNum: int
    ghost var hands: seq<set<int>>   // the rows of `hand`
    ghost var discard: seq<int>
    ghost var reshuffled: bool
    var over: bool
    var stuck: bool

    ghost predicate Arrays()
      reads this
    {
      && hand.Length0 == SEATS && hand.Length1 == CARDS && handNum.Length == SEATS && cardSeq.Length == CARDS
      && isUno.Length == SEATS && timeStamp.Length == SEATS && timeStamp != handNum && timeStamp != cardSeq
      && handNum != cardSeq && cardNum <= CARDS && whoseRound < SEATS && |hands| == SEATS && -1 <= haveUno < SEATS
    }

    /** `hands` says what `hand` says. */
    ghost predicate Rows()
      requires Arrays()
      reads this, hand
    {
      && (forall i, q :: 0 <= i < SEATS && 0 <= q < CARDS ==>
            if q in hands[i] then hand[i, q] == 1 else hand[i, q] == 0)
      && (forall i, q :: 0 <= i < SEATS && q in hands[i] ==> 0 <= q < CARDS)
    }

    ghost predicate InRange()
      requires Arrays()
      reads this, cardSeq
    {
      forall k :: 0 <= k < CARDS ==> 0 <= cardSeq[k] < CARDS
    }

    ghost predicate Valid()
      reads this, hand, cardSeq
    {
      Arrays() && Rows() && InRange()
    }

    ghost function State(): (g: Game)
      requires Valid()
      reads this, hand, cardSeq, handNum, isUno, timeStamp
      ensures Shaped(g)
    {
      Game(hands, handNum[..], cardSeq[..], cardNum, discard, whoseRound, turn, tableCard, cardId, playerNum,
           isUno[..], if haveUno == -1 then None else Some(haveUno), timeStamp[..], reshuffled, over, stuck)
    }

    /** Nothing has happened yet. */
    ghost predicate Blank()
      reads this, isUno, timeStamp
    {
      && isUno[..] == seq(SEATS, _ => false) && timeStamp[..] == seq(SEATS, _ => LONG_MAX) && haveUno == -1
      && hands == seq(SEATS, _ => {}) && discard == [] && !over && !stuck && !reshuffled
      && whoseRound == 0 && turn == 0 && tableCard == 0 && playerNum == 0
    }

    /** Lines 283-284: hands of zeros, and arrays still to be filled; lines 357 and 364-368
        for the calls. */
    constructor ()
      ensures Valid() && Blank()
      ensures fresh(hand) && fresh(handNum) && fresh(cardSeq) && fresh(isUno) && fresh(timeStamp)
    {
      isUno := new bool[SEATS](_ => false);
      timeStamp := new int[SEATS](_ => LONG_MAX);
      haveUno := -1;
      hand := new int[SEATS, CARDS]((_, _) => 0);
      handNum := new int[SEATS](_ => 0);
      cardSeq := new int[CARDS](_ => 0);
      cardNum, whoseRound, turn, tableCard, cardId, playerNum := 0, 0, 0, 0, 0, 0;
      hands, discard, reshuffled, over, stuck := seq(SEATS, _ => {}), [], false, false, false;
    }

    /** Line 268 and its like: a card into a hand. */
    method SetCard(seat: nat, c: int)
      requires Valid() && seat < SEATS && 0 <= c < CARDS
      modifies hand, `hands
      ensures Valid() && hands == old(hands)[seat := old(hands)[seat] + {c}]
    {
      hand[seat, c] := 1;
      hands := hands[seat := hands[seat] + {c}];
    }

    /** Line 477. */
    method ClearCard(seat: nat, c: int)
      requires Valid() && seat < SEATS && 0 <= c < CARDS
      modifies hand, `hands
      ensures Valid() && hands == old(hands)[seat := old(hands)[seat] - {c}]
    {
      hand[seat, c] := 0;
      hands := hands[seat := hands[seat] - {c}];
    }

    /** Lines 241-264, but for the messages. */
    method Reshuffle(adopted: array<int>, rand: Rand)
      requires Valid() && adopted.Length == CARDS && adopted != handNum && adopted != cardSeq && adopted != timeStamp
      requires Marks(adopted[..], Unheld(State()))
      modifies adopted, cardSeq, `cardNum, `reshuffled
      ensures Valid() && State() == UnoSpec.Reshuffle(old(State()), rand)
      ensures Marks(adopted[..], Unheld(State()))
    {
      hide Unheld, Shuffle, Count, Marks, RowIs, CountIn;
      ghost var g := State();
      RowsAre(g);
      CountAll(g);
      MarkHeld(hand, handNum, adopted, g);
      ghost var before := cardSeq[..];
      cardNum := CollectUnheld(adopted, cardSeq, Unheld(g));
      ghost var mid := cardSeq[..];
      ShuffleArray(cardSeq, cardNum, rand);
      reshuffled := true;
      ShuffledInRange(before, mid, cardSeq[..], cardNum, rand);
      UnheldSame(g, UnoSpec.Reshuffle(g, rand));
    }

    /** Lines 268-276 for one card. */
    method TakeTop(seat: nat)
      requires Valid() && seat < SEATS && cardNum > 0
      modifies hand, handNum, isUno, `hands, `cardNum
      ensures Valid() && State() == Take(old(State()), seat) && handNum[seat] == old(handNum[seat]) + 1
    {
      SetCard(seat, cardSeq[cardNum - 1]);
      handNum[seat] := handNum[seat] + 1;
      cardNum := cardNum - 1;
      if isUno[seat] {
        isUno[seat] := false;
      }
    }

    /** The program would read `card_seq[-1]`. */
    method RunDry()
      requires Valid()
      modifies `stuck
      ensures Valid() && State() == old(State()).(stuck := true)
    {
      stuck := true;
    }

    /** Lines 239-276, one round of the loop, when `n` cards are still to be given. */
    method GiveOne(seat: nat, n: nat, rands: Rands, adopted: array<int>)
      requires Valid() && seat < SEATS && n > 0 && handNum[seat] >= GONE && !stuck
      requires adopted.Length == CARDS && adopted != handNum && adopted != cardSeq && adopted != timeStamp
      requires Marks(adopted[..], Unheld(State()))
      modifies adopted, hand, handNum, cardSeq, isUno, `hands, `cardNum, `reshuffled, `stuck
      ensures Valid()
      ensures Give(old(State()), seat, n, rands) == if stuck then State() else Give(State(), seat, n - 1, rands)
      ensures !stuck ==> handNum[seat] >= GONE && Marks(adopted[..], Unheld(State()))
    {
      hide Marks, Unheld, Give, Take, UnoSpec.Reshuffle, Valid;
      ghost var was := State();
      if cardNum <= 0 {
        Reshuffle(adopted, rands(n));
      }
      ghost var f := State();
      GiveStep(was, f, seat, n, rands);
      if cardNum == 0 {
        RunDry();
        return;
      }
      TakeShrinks(f, seat, adopted[..]);
      TakeTop(seat);
    }

    /** `GiveCardToPlayer`. */
    method GiveCardToPlayer(seat: nat, howMany: nat, rands: Rands)
      requires Valid() && seat < SEATS && handNum[seat] >= GONE && !stuck
      modifies hand, handNum, cardSeq, isUno, `hands, `cardNum, `reshuffled, `stuck
      ensures Valid() && State() == Give(old(State()), seat, howMany, rands)
    {
      hide Marks, Unheld, Give, Valid;
      ghost var g := State();
      var adopted := new int[CARDS](_ => 0);
      NoMarks(adopted[..], Unheld(g));
      var i := 0;
      while i < howMany
        invariant i <= howMany && Valid() && !stuck && handNum[seat] >= GONE
        invariant Marks(adopted[..], Unheld(State()))
        invariant Give(State(), seat, howMany - i, rands) == Give(g, seat, howMany, rands)
      {
        GiveOne(seat, howMany - i, rands, adopted);
        if stuck {
          return;
        }
        i := i + 1;
      }
      GiveNone(State(), seat, rands);
    }

    /** A turn on. */
    method NextRound()
      requires Valid()
      modifies `whoseRound
      ensures Valid() && State() == Advance(old(State()))
    {
      whoseRound := SwitchToNextPlayer(whoseRound, handNum, turn);
    }

    /** Lines 471-474: the first card of that face in the hand; 108 when there is none. */
    method LookFor(i: nat, wanted: (char, char)) returns (j: nat)
      requires Valid() && i < SEATS
      ensures j <= CARDS && Find(hands[i], wanted, 0) == if j < CARDS then Some(j) else None
    {
      hide Face;
      RowsAre(State());
      assert RowIs(hand, i, hands[i]);
      j := 0;
      while j < CARDS
        invariant j <= CARDS && Find(hands[i], wanted, j) == Find(hands[i], wanted, 0)
      {
        if hand[i, j] != 0 && Face(j) == wanted {
          return;
        }
        j := j + 1;
      }
    }

    /** Lines 476-478. */
    method PutAway(i: nat, j: nat)
      requires Valid() && i < SEATS && j < CARDS
      modifies hand, handNum, `hands, `cardId, `discard
      ensures Valid() && cardId == j
      ensures var g := old(State());
        State() == g.(hands := g.hands[i := g.hands[i] - {j}], sizes := g.sizes[i := g.sizes[i] - 1],
                      cardId := j, discard := g.discard + [j])
    {
      cardId := j;
      ClearCard(i, j);
      handNum[i] := handNum[i] - 1;
      discard := discard + [j];
    }

    /** Lines 466-484: the card found leaves the hand for the table. */
    method PlayCard(i: nat, name: (char, char))
      requires Valid() && i < SEATS
      modifies hand, handNum, `hands, `cardId, `tableCard, `discard
      ensures Valid() && State() == PutDown(old(State()), i, name)
    {
      hide Face, Find;
      var wanted := if name.0 == 'd' || name.0 == 'e' then (name.0, 'x') else name;
      var j := LookFor(i, wanted);
      if j < CARDS {
        PutAway(i, j);
      }
      tableCard := cardId;
    }

    /** Lines 514-539. */
    method CardEffect(rands: Rands)
      requires Valid() && Steady(State()) && !over && !stuck
      modifies this, hand, handNum, cardSeq, isUno
      ensures Valid() && State() == Effect(old(State()), rands)
    {
      hide Valid, Steady, Give, Advance;
      if 76 <= tableCard < 84 {
        NextRound();
        NextRound();
      } else if 84 <= tableCard < 92 {
        Turn();
        if playerNum > 2 {
          NextRound();
        }
      } else if 92 <= tableCard < 100 {
        AdvanceSteady(State());
        NextRound();
        HasCards(State());
        GiveCardToPlayer(whoseRound, 2, rands);
        NextRound();
      } else if 104 <= tableCard < 108 {
        AdvanceSteady(State());
        NextRound();
        HasCards(State());
        GiveCardToPlayer(whoseRound, 4, rands);
        NextRound();
      } else {
        NextRound();
      }
    }

    method Turn()
      requires Valid()
      modifies `turn
      ensures Valid() && State() == old(State()).(turn := (old(turn) + 1) % 2)
    {
      turn := (turn + 1) % 2;
    }

    /** A player leaves (lines 388-448). */
    method OnLeave(i: nat)
      requires Valid() && Enabled(State(), Leave(i))
      modifies handNum, `playerNum, `over, `whoseRound
      ensures Valid() && State() == Step(old(State()), Leave(i))
    {
      handNum[i] := GONE;
      playerNum := playerNum - 1;
      if playerNum < 2 {
        over := true;
        return;
      }
      if i == whoseRound {
        NextRound();
      }
    }

    /** A player plays a card (lines 461-542); nobody checks that it is their turn. */
    method OnPlay(i: nat, name: (char, char), rands: Rands)
      requires Valid() && Steady(State()) && Enabled(State(), Play(i, name, rands))
      modifies this, hand, handNum, cardSeq, isUno
      ensures Valid() && State() == Step(old(State()), Play(i, name, rands))
    {
      hide Valid, Steady, PutDown, Effect;
      ghost var g := State();
      PutDownSteady(g, i, name);
      PlayCard(i, name);
      if handNum[i] <= 0 {
        GameOver();
        return;
      }
      CardEffect(rands);
    }

    method GameOver()
      requires Valid()
      modifies `over
      ensures Valid() && State() == old(State()).(over := true)
    {
      over := true;
    }

    /** A player passes (lines 543-550): whoever has the turn draws. */
    method OnSkip(i: nat, rands: Rands)
      requires Valid() && Steady(State()) && Enabled(State(), Skip(i, rands))
      modifies this, hand, handNum, cardSeq, isUno
      ensures Valid() && State() == Step(old(State()), Skip(i, rands))
    {
      hide Valid, Steady, Give, Advance;
      HasCards(State());
      GiveCardToPlayer(whoseRound, 1, rands);
      NextRound();
    }

    /** A false "UNO" (lines 558-563, 583-588) costs two cards. */
    method OnPenalty(i: nat, rands: Rands)
      requires Valid() && Steady(State()) && Enabled(State(), Penalty(i, rands))
      modifies this, hand, handNum, cardSeq, isUno
      ensures Valid() && State() == Step(old(State()), Penalty(i, rands))
    {
      hide Valid, Steady, Give;
      MayHaveCards(State(), i);
      GiveCardToPlayer(i, 2, rands);
    }

    /** A call for oneself (lines 565-574). */
    method OnCallUno(i: nat, stamp: int)
      requires Valid() && i < SEATS
      modifies timeStamp, `haveUno
      ensures Valid() && State() == CallFor(old(State()), i, stamp)
    {
      if !isUno[i] && handNum[i] == 1 {
        haveUno := i;
        if timeStamp[i] == LONG_MAX {
          timeStamp[i] := stamp;
        }
      }
    }

    /** Lines 596-604: the seat of the player named. */
    method LookUp(names: seq<string>, name: string) returns (named: Option<nat>)
      requires Valid() && |names| == SEATS
      ensures named == Named(handNum[..], names, name, 0)
    {
      var j := 0;
      while j < SEATS
        invariant j <= SEATS && Named(handNum[..], names, name, j) == Named(handNum[..], names, name, 0)
      {
        if handNum[j] != GONE && names[j] == name {
          return Some(j);
        }
        j := j + 1;
      }
      return None;
    }

    /** A call against another player (lines 589-614), whose seat has been looked up. */
    method OnAccuse(i: nat, named: Option<nat>, stamp: int)
      requires Valid() && i < SEATS && (named.Some? ==> named.value < SEATS) && (named.Some? || haveUno != -1)
      modifies timeStamp, `haveUno
      ensures Valid() && State() == AccuseOne(old(State()), i, named, stamp)
    {
      if haveUno == -1 {
        haveUno := named.value;
      }
      if !isUno[haveUno] && handNum[haveUno] == 1 {
        if timeStamp[i] == LONG_MAX {
          timeStamp[i] := stamp;
        }
      } else {
        haveUno := -1;
      }
    }

    /** Lines 623-635. */
    method FindFastest() returns (fastest: nat)
      requires Valid() && haveUno != -1
      ensures fastest == Fastest(State(), haveUno)
    {
      ghost var hn, stamps := handNum[..], timeStamp[..];
      fastest := 0;
      var i := 1;
      while i < SEATS
        invariant 1 <= i <= SEATS && fastest < SEATS
        invariant FastestFrom(hn, stamps, haveUno, fastest, i) == FastestFrom(hn, stamps, haveUno, 0, 1)
      {
        assert hn[i] == handNum[i] && stamps[i] == timeStamp[i] && stamps[fastest] == timeStamp[fastest];
        if handNum[i] != GONE {
          if timeStamp[i] < timeStamp[fastest] {
            fastest := i;
          } else if timeStamp[i] == timeStamp[fastest] {
            if i == haveUno {
              fastest := i;
            }
          }
        }
        i := i + 1;
      }
    }

    /** Line 641. */
    method Called()
      requires Valid() && haveUno != -1
      modifies isUno
      ensures Valid() && State() == old(State()).(isUno := old(isUno[..])[haveUno := true])
    {
      isUno[haveUno] := true;
    }

    /** Lines 364-368. */
    method NewRound()
      requires Valid()
      modifies timeStamp, `haveUno
      ensures Valid() && State() == old(State()).(call := None, stamps := seq(SEATS, _ => LONG_MAX))
    {
      haveUno := -1;
      for i := 0 to SEATS
        modifies timeStamp
        invariant forall k :: 0 <= k < i ==> timeStamp[k] == LONG_MAX
      {
        timeStamp[i] := LONG_MAX;
      }
      assert timeStamp[..] == seq(SEATS, _ => LONG_MAX);
    }

    /** The end of a round (lines 621-654): the call pending is judged. */
    method OnEndRound(rands: Rands)
      requires Valid() && Steady(State()) && Enabled(State(), EndRound(rands))
      modifies this, hand, handNum, cardSeq, isUno, timeStamp
      ensures Valid() && State() == Step(old(State()), EndRound(rands))
    {
      hide Valid, Steady, Give, Fastest;
      if haveUno != -1 {
        var fastest := FindFastest();
        if fastest == haveUno {
          Called();
        } else {
          MayHaveCards(State(), haveUno);
          GiveCardToPlayer(haveUno, 2, rands);
        }
      }
      NewRound();
    }

    /** Whether a message is taken: the game is on, and those concerned are in it. */
    method Takes(e: Event) returns (ok: bool)
      requires Valid()
      ensures ok == Enabled(State(), e)
    {
      if over || stuck {
        return false;
      }
      match e {
        case EndRound(_) => ok := true;
        case Accuse(i, named, _) =>
          ok := i < SEATS && handNum[i] != GONE && (named.Some? || haveUno != -1)
                && (named.Some? ==> named.value < SEATS && handNum[named.value] != GONE);
        case _ => ok := e.i < SEATS && handNum[e.i] != GONE;
      }
    }

    /** A message, or the end of a round. */
    method OnMessage(e: Event) returns (ok: bool)
      requires Valid() && Steady(State())
      modifies this, hand, handNum, cardSeq, isUno, timeStamp
      ensures Valid() && Steady(State()) && ok == Enabled(old(State()), e)
      ensures State() == if ok then Step(old(State()), e) else old(State())
    {
      hide Valid, Steady, Step;
      ok := Takes(e);
      if !ok {
        return;
      }
      StepSteady(State(), e);
      match e {
        case Leave(i) => OnLeave(i);
        case Play(i, name, rands) => OnPlay(i, name, rands);
        case Skip(i, rands) => OnSkip(i, rands);
        case Penalty(i, rands) => OnPenalty(i, rands);
        case CallUno(i, stamp) => OnCall(e);
        case Accuse(i, named, stamp) => OnCall(e);
        case EndRound(rands) => OnEndRound(rands);
      }
    }

    /** The two valid calls. */
    method OnCall(e: Event)
      requires Valid() && Enabled(State(), e) && (e.CallUno? || e.Accuse?)
      modifies timeStamp, `haveUno
      ensures Valid() && State() == Step(old(State()), e)
    {
      match e {
        case CallUno(i, stamp) => OnCallUno(i, stamp);
        case Accuse(i, named, stamp) => OnAccuse(i, named, stamp);
      }
    }

    lemma RowsAre(g: Game)
      requires Arrays() && Rows() && g.hands == hands && |g.hands| == SEATS
      ensures forall i :: 0 <= i < SEATS ==> RowIs(hand, i, g.hands[i])
    {
    }

    /** Lines 308-309. */
    method DealTop(seat: nat)
      requires Valid() && seat < SEATS && cardNum > 0
      modifies hand, `hands, `cardNum
      ensures Valid() && State() == DealCard(old(State()), seat)
    {
      SetCard(seat, cardSeq[cardNum - 1]);
      cardNum := cardNum - 1;
    }

    /** Lines 306-311 for one seat: seven cards, then `hand_num`. */
    method DealHand(seat: nat)
      requires Valid() && seat < SEATS && cardNum >= HAND
      modifies hand, handNum, `hands, `cardNum
      ensures Valid() && State() == DealSeat(old(State()), seat)
    {
      hide Valid;
      ghost var g := State();
      var j := 0;
      while j < 7
        invariant j <= 7 && Valid() && State() == DealCards(g, seat, j)
      {
        DealTop(seat);
        j := j + 1;
      }
      Dealt(seat);
    }

    method Dealt(seat: nat)
      requires Valid() && seat < SEATS
      modifies handNum
      ensures Valid() && State() == old(State()).(sizes := old(handNum[..])[seat := 7])
    {
      handNum[seat] := 7;
    }

    /** Lines 317-318. */
    method TurnUpOne()
      requires Valid() && cardNum > 0
      modifies `tableCard, `cardNum, `discard
      ensures Valid() && cardNum == old(cardNum) - 1 && tableCard == cardSeq[cardNum]
      ensures var g, c := old(State()), cardSeq[cardNum];
        State() == g.(left := g.left - 1, table := c, discard := g.discard + [c])
    {
      tableCard := cardSeq[cardNum - 1];
      cardNum := cardNum - 1;
      discard := discard + [tableCard];
    }

    /** Lines 315-321: cards for the table until one is not wild. */
    method TurnUpCard()
      requires Valid() && Wilds(cardSeq[..], cardNum) < cardNum
      modifies `tableCard, `cardNum, `discard
      ensures Valid() && State() == TurnUp(old(State()))
    {
      hide Valid;
      ghost var g := State();
      while true
        invariant Valid() && TurnUp(State()) == TurnUp(g)
        invariant cardNum <= cardSeq.Length && Wilds(cardSeq[..], cardNum) < cardNum
        decreases cardNum
      {
        TurnUpStep(State());
        TurnUpOne();
        if tableCard < 100 {
          break;
        }
      }
    }

    /** Lines 286-302: the shuffled pile, and nobody with cards. */
    method Clear(rand: Rand)
      requires Valid() && Blank()
      modifies handNum, cardSeq, `cardNum
      ensures Valid() && State() == Fresh(Shuffle(CARDS, rand), cardId)
    {
      hide Shuffle, Count;
      ghost var before := cardSeq[..];
      cardNum := CARDS;
      ShuffleArray(cardSeq, cardNum, rand);
      ShuffledInRange(before, before, cardSeq[..], CARDS, rand);
      for i := 0 to SEATS
        modifies handNum
        invariant forall k :: 0 <= k < i ==> handNum[k] == GONE
      {
        handNum[i] := GONE;
      }
      assert handNum[..] == seq(SEATS, _ => GONE);
    }

    /** The players on their seats get their cards (lines 303-313). */
    method DealAll(used: Seats, ghost pile: seq<int>)
      requires Valid() && |pile| == CARDS && State() == Fresh(pile, cardId)
      modifies hand, handNum, `hands, `cardNum
      ensures Valid() && State() == Deal(pile, old(cardId), used, SEATS)
    {
      hide Valid, DealSeat;
      ghost var id := cardId;
      var i := 0;
      while i < SEATS
        invariant i <= SEATS && Valid() && State() == Deal(pile, id, used, i)
      {
        if used[i] {
          RankGrows(used, i + 1, SEATS);
          DealHand(i);
        }
        i := i + 1;
      }
    }

    /** The whole opening, lines 286-335. Line 836 sees to it that there are players. */
    method Open(used: Seats, players: int, rand: Rand, first: nat)
      requires Valid() && Blank() && players == Rank(used, SEATS) && players > 0
      modifies this, hand, handNum, cardSeq
      ensures Valid() && Inv(State()) && used[whoseRound] && Rank(used, whoseRound) == first % players
      ensures State() == Opened(CARDS, rand, old(cardId), used, whoseRound)
    {
      hide Valid, Blank, Shuffle, Conserved, Wilds, Deal, TurnUp, Inv;
      ghost var id := cardId;
      Clear(rand);
      DealAll(used, Shuffle(CARDS, rand));
      ReadyToTurnUp(rand, id, used);
      TurnUpCard();
      var seat := PickFirst(used, first % players);
      Seat(seat, players);
      OpenedInv(CARDS, rand, id, used, seat);
    }

    method Seat(seat: nat, players: int)
      requires Valid() && seat < SEATS
      modifies `whoseRound, `playerNum
      ensures Valid() && State() == old(State()).(seat := seat, players := players)
    {
      whoseRound, playerNum := seat, players;
    }
  }

  lemma ReadyToTurnUp(rand: Rand, id: int, used: Seats)
    ensures var d := Deal(Shuffle(CARDS, rand), id, used, SEATS); Wilds(d.pile, d.left) < d.left
  {
    hide Conserved, Shuffle, Wilds, Deal;
    FreshConserved(CARDS, rand, id);
    DealConserves(Shuffle(CARDS, rand), id, used, SEATS);
    EightWilds(Deal(Shuffle(CARDS, rand), id, used, SEATS));
  }

  /** Lines 325-335: the player with the number drawn. */
  method PickFirst(used: Seats, whoseRound: nat) returns (seat: nat)
    requires whoseRound < Rank(used, SEATS)
    ensures seat < SEATS && used[seat] && Rank(used, seat) == whoseRound
  {
    seat := 0;
    var i, j := 0, 0;
    while i < SEATS
      invariant i <= SEATS && j == Rank(used, i) <= whoseRound
    {
      if used[i] {
        if j == whoseRound {
          return i;
        }
        j := j + 1;
      }
      i := i + 1;
    }
    assert false;
  }

  /** A whole game, for any messages and any random numbers: one of the runs of the
      specification from the opening on. */
  method PlayGame(used: Seats, players: int, rand: Rand, first: nat, messages: seq<Event>)
    returns (room: Room, ghost id: int, ghost seat: nat, ghost run: seq<Event>)
    requires players == Rank(used, SEATS) && players > 0
    ensures room.Valid() && seat < SEATS && used[seat] && Rank(used, seat) == first % players
    ensures Reaches(Opened(CARDS, rand, id, used, seat), run, room.State())
    ensures !room.reshuffled ==> Conserved(room.State())
    ensures !room.over && !room.stuck ==> Active(room.State().sizes, room.whoseRound)
    ensures FairRun(Opened(CARDS, rand, id, used, seat), run) ==>
      room.playerNum == |ActiveSeats(room.State().sizes)| && (!room.reshuffled ==> Counted(room.State()) && !room.stuck)
  {
    hide Room.Valid, Conserved, Counted, Steady, Step, Inv, Enabled, Opened, ActiveSeats, FairRun;
    room := new Room();
    id := room.cardId;
    room.Open(used, players, rand, first);
    seat, run := room.whoseRound, [];
    ghost var g := Opened(CARDS, rand, id, used, seat);
    InvSteady(g);
    for i := 0 to |messages|
      invariant room.Valid() && Steady(room.State()) && Reaches(g, run, room.State())
      invariant fresh(room) && fresh(room.hand) && fresh(room.handNum) && fresh(room.cardSeq)
      invariant fresh(room.isUno) && fresh(room.timeStamp)
    {
      ghost var h := room.State();
      var ok := room.OnMessage(messages[i]);
      if ok {
        ReachesSnoc(g, run, h, messages[i]);
        run := run + [messages[i]];
      }
    }
    EveryGame(CARDS, rand, id, used, seat, run, room.State());
  }
}

/** The cards of the UNO game of tcpcliserv/final_server.c: the draw pile, the hands and
    the cards played, from the deal to the end of the game, for any messages from the
    players and any random numbers. */
module UnoSpec {
  import opened Wrappers
  import opened UnoTurn

  const CARDS: nat := 108

  /** `pile` is all of `card_seq`, whose first `left` entries are still to be drawn, from
      the end; `hands` are the rows of `hand`, a departed player's included; `discard`
      lists the cards put on the table. `isUno`, `call` and `stamps` are `is_uno`,
      `have_uno` and `time_stamp`. `stuck` marks a draw from an empty pile. */
  datatype Game = Game(hands: seq<set<int>>, sizes: Sizes, pile: seq<int>, left: nat, discard: seq<int>,
                       seat: nat, turn: int, table: int, cardId: int, players: int,
                       isUno: seq<bool>, call: Option<nat>, stamps: seq<int>,
                       reshuffled: bool, over: bool, stuck: bool)

  const LONG_MAX: int := 0x7fff_ffff_ffff_ffff

  predicate Shaped(g: Game) {
    && |g.hands| == SEATS && |g.pile| == CARDS && g.left <= CARDS && g.seat < SEATS
    && |g.isUno| == SEATS && |g.stamps| == SEATS && (g.call.Some? ==> g.call.value < SEATS)
  }

  /** Random numbers, one by one; and a supply of them for each card of a draw. */
  type Rand = nat -> nat
  type Rands = nat -> Rand

  // ---------------------------------------------------------------------
  // shuffle
  // ---------------------------------------------------------------------

  function Iota(n: nat): (a: seq<int>)
    ensures |a| == n && forall i :: 0 <= i < n ==> a[i] == i
  {
    seq(n, i => i)
  }

  function Swap(a: seq<int>, i: nat, j: nat): (b: seq<int>)
    requires i < |a| && j < |a|
    ensures |b| == |a|
  {
    a[i := a[j]][j := a[i]]
  }

  /** The exchanges at `i`, `i - 1`, ..., 1; `rand` gives the random number used at each. */
  function Exchanges(a: seq<int>, i: nat, rand: Rand): (b: seq<int>)
    requires i < |a| || i == 0
    ensures |b| == |a|
    decreases i
  {
    if i == 0 then a else Exchanges(Swap(a, i, rand(i) % (i + 1)), i - 1, rand)
  }

  function Shuffle(n: nat, rand: Rand): (b: seq<int>)
    ensures |b| == n
  {
    Exchanges(Iota(n), if n == 0 then 0 else n - 1, rand)
  }

  /** How often `c` occurs among the first `n` entries of `a`. */
  function Count(a: seq<int>, n: nat, c: int): nat
    requires n <= |a|
  {
    if n == 0 then 0 else Count(a, n - 1, c) + if a[n - 1] == c then 1 else 0
  }

  lemma {:induction false} CountUpdate(a: seq<int>, n: nat, i: nat, v: int, c: int)
    requires n <= |a| && i < n
    ensures Count(a[i := v], n, c) == Count(a, n, c) - (if a[i] == c then 1 else 0) + if v == c then 1 else 0
  {
    if i == n - 1 {
      CountSame(a[i := v], a, n - 1, c);
    } else {
      CountUpdate(a, n - 1, i, v, c);
    }
  }

  lemma {:induction false} CountSame(a: seq<int>, b: seq<int>, n: nat, c: int)
    requires n <= |a| && n <= |b| && forall k :: 0 <= k < n ==> a[k] == b[k]
    ensures Count(a, n, c) == Count(b, n, c)
  {
    if n > 0 {
      CountSame(a, b, n - 1, c);
    }
  }

  lemma {:induction false} ExchangesPermute(a: seq<int>, i: nat, rand: Rand, c: int)
    requires i < |a| || i == 0
    ensures Count(Exchanges(a, i, rand), |a|, c) == Count(a, |a|, c)
    decreases i
  {
    if i > 0 {
      var j := rand(i) % (i + 1);
      CountUpdate(a, |a|, i, a[j], c);
      CountUpdate(a[i := a[j]], |a|, j, a[i], c);
      ExchangesPermute(Swap(a, i, j), i - 1, rand, c);
    }
  }

  lemma {:induction false} CountIota(a: seq<int>, n: nat, c: int)
    requires n <= |a| && forall i :: 0 <= i < n ==> a[i] == i
    ensures Count(a, n, c) == if 0 <= c < n then 1 else 0
  {
    if n > 0 {
      CountIota(a, n - 1, c);
    }
  }

  /** `shuffle` yields each of 0, ..., n - 1 once and nothing else, whatever the array
      held before. */
  lemma ShuffleIsPermutation(n: nat, rand: Rand, c: int)
    ensures Count(Shuffle(n, rand), n, c) == if 0 <= c < n then 1 else 0
  {
    ExchangesPermute(Iota(n), if n == 0 then 0 else n - 1, rand, c);
    CountIota(Iota(n), n, c);
  }

  // ---------------------------------------------------------------------
  // Where the cards are
  // ---------------------------------------------------------------------

  /** The numbers below `n`. */
  function Below(n: nat): (b: set<int>)
    ensures |b| == n && forall i :: i in b <==> 0 <= i < n
  {
    if n == 0 then {} else Below(n - 1) + {n - 1}
  }

  /** How many hands have `c`. */
  function Held(hands: seq<set<int>>, c: int): nat {
    if hands == [] then 0 else Held(hands[1..], c) + if c in hands[0] then 1 else 0
  }

  lemma {:induction false} HeldUpdate(hands: seq<set<int>>, s: nat, h: set<int>, c: int)
    requires s < |hands|
    ensures Held(hands[s := h], c) == Held(hands, c) - (if c in hands[s] then 1 else 0) + if c in h then 1 else 0
    ensures c in hands[s] ==> Held(hands, c) > 0
  {
    if s == 0 {
      assert hands[0 := h][1..] == hands[1..];
    } else {
      HeldUpdate(hands[1..], s - 1, h, c);
      assert hands[s := h][1..] == hands[1..][s - 1 := h];
    }
  }

  /** In how many places a card is: in the pile, in hands, among the cards played. */
  function Places(g: Game, c: int): nat
    requires Shaped(g)
  {
    Count(g.pile, g.left, c) + Held(g.hands, c) + Count(g.discard, |g.discard|, c)
  }

  /** Every card is in exactly one place, and there is nothing but cards in them. */
  ghost predicate Conserved(g: Game)
    requires Shaped(g)
  {
    && (forall c :: 0 <= c < CARDS ==> Places(g, c) == 1)
    && (forall k :: 0 <= k < g.left ==> 0 <= g.pile[k] < CARDS)
    && (forall k :: 0 <= k < |g.discard| ==> 0 <= g.discard[k] < CARDS)
    && (forall s, c :: 0 <= s < SEATS && c in g.hands[s] ==> 0 <= c < CARDS)
  }

  /** `hand_num` counts the cards of each player in the game. */
  predicate Counted(g: Game)
    requires Shaped(g)
  {
    forall s :: 0 <= s < SEATS && Active(g.sizes, s) ==> g.sizes[s] == |g.hands[s]|
  }

  // ---------------------------------------------------------------------
  // Drawing
  // ---------------------------------------------------------------------

  /** Lines 268-276: the last card of the pile goes to `seat`, whose call is void. */
  function Take(g: Game, seat: nat): (h: Game)
    requires Shaped(g) && seat < SEATS && g.left > 0
    ensures Shaped(h)
  {
    var c := g.pile[g.left - 1];
    g.(hands := g.hands[seat := g.hands[seat] + {c}], sizes := g.sizes[seat := g.sizes[seat] + 1], left := g.left - 1,
       isUno := g.isUno[seat := false])
  }

  /** The cards that no player in the game holds. */
  function Unheld(g: Game): set<int>
    requires Shaped(g)
  {
    set q | q in Below(CARDS) && forall s :: 0 <= s < SEATS && Active(g.sizes, s) ==> q !in g.hands[s]
  }

  lemma UnheldFits(g: Game)
    requires Shaped(g)
    ensures |Unheld(g)| <= CARDS
  {
    SubsetCount(Unheld(g), Below(CARDS));
  }

  lemma {:induction false} SubsetCount<T>(a: set<T>, b: set<T>)
    requires a <= b
    ensures |a| <= |b|
  {
    if a != {} {
      var x :| x in a;
      SubsetCount(a - {x}, b - {x});
    }
  }

  /** Lines 241-264: the pile becomes a shuffle of as many numbers as cards are unheld. */
  function Reshuffle(g: Game, rand: Rand): (h: Game)
    requires Shaped(g)
    ensures Shaped(h) && h.reshuffled
  {
    UnheldFits(g);
    var k := |Unheld(g)|;
    g.(pile := Shuffle(k, rand) + g.pile[k..], left := k, reshuffled := true)
  }

  function Draw(g: Game, seat: nat, rand: Rand): (h: Game)
    requires Shaped(g) && seat < SEATS
    ensures Shaped(h)
  {
    var f := if g.left == 0 then Reshuffle(g, rand) else g;
    if f.left == 0 then f.(stuck := true) else Take(f, seat)
  }

  /** `n` cards, each with its own random numbers for a reshuffle. */
  function Give(g: Game, seat: nat, n: nat, rands: Rands): (h: Game)
    requires Shaped(g) && seat < SEATS
    ensures Shaped(h)
    decreases n
  {
    if n == 0 || g.stuck then g else Give(Draw(g, seat, rands(n)), seat, n - 1, rands)
  }

  lemma TakeMoves(g: Game, seat: nat, c: int)
    requires Shaped(g) && seat < SEATS && g.left > 0
    requires g.pile[g.left - 1] !in g.hands[seat]
    ensures Places(Take(g, seat), c) == Places(g, c)
  {
    hide Held;
    var t := g.pile[g.left - 1];
    HeldUpdate(g.hands, seat, g.hands[seat] + {t}, c);
  }

  /** The top card is in no hand. */
  lemma TopIsFree(g: Game, seat: nat)
    requires Shaped(g) && seat < SEATS && g.left > 0 && Conserved(g)
    ensures g.pile[g.left - 1] !in g.hands[seat]
  {
    hide Held;
    var t := g.pile[g.left - 1];
    assert Places(g, t) == 1;
    HeldUpdate(g.hands, seat, g.hands[seat], t);
  }

  lemma TakeConserves(g: Game, seat: nat)
    requires Shaped(g) && seat < SEATS && g.left > 0 && Conserved(g)
    ensures Conserved(Take(g, seat)) && |Take(g, seat).hands[seat]| == |g.hands[seat]| + 1
  {
    hide Places;
    TopIsFree(g, seat);
    forall c | 0 <= c < CARDS ensures Places(Take(g, seat), c) == 1 {
      TakeMoves(g, seat, c);
    }
  }

  // ---------------------------------------------------------------------
  // The first reshuffle
  // ---------------------------------------------------------------------

  /** The pile and the hands of the players in the game, taken as a whole deck. */
  ghost predicate WholeDeck(g: Game)
    requires Shaped(g)
  {
    forall c :: 0 <= c < CARDS ==> (Count(g.pile, g.left, c) == 1 <==> c in Unheld(g)) && Count(g.pile, g.left, c) <= 1
  }

  /** What is in the pile afterwards. */
  lemma PileAfter(g: Game, rand: Rand, c: int)
    requires Shaped(g)
    ensures var h := Reshuffle(g, rand);
      Unheld(h) == Unheld(g) && Count(h.pile, h.left, c) == if 0 <= c < |Unheld(g)| then 1 else 0
  {
    hide Count, Shuffle;
    UnheldFits(g);
    var k, h := |Unheld(g)|, Reshuffle(g, rand);
    CountSame(h.pile, Shuffle(k, rand), k, c);
    ShuffleIsPermutation(k, rand, c);
  }

  lemma LowestOnes(u: set<int>)
    requires forall c :: c in u ==> 0 <= c < CARDS
    ensures (forall c :: 0 <= c < CARDS ==> (0 <= c < |u| <==> c in u)) <==> (forall c :: c in u ==> c < |u|)
  {
    if forall c :: c in u ==> c < |u| {
      assert u <= Below(|u|);
      SubsetFull(u, Below(|u|));
    }
  }

  /** Lines 254-263 collect the unheld cards, but `shuffle` overwrites them with 0, 1, ...
      (lines 152-155): the new pile holds exactly the cards that no player holds if and
      only if those cards are the lowest-numbered ones. */
  lemma ReshuffleExactly(g: Game, rand: Rand)
    requires Shaped(g)
    ensures WholeDeck(Reshuffle(g, rand)) <==> forall c :: c in Unheld(g) ==> c < |Unheld(g)|
  {
    hide Count, Unheld, Reshuffle;
    var h := Reshuffle(g, rand);
    UnheldAreCards(g);
    LowestOnes(Unheld(g));
    forall c | 0 <= c < CARDS
      ensures Count(h.pile, h.left, c) == (if 0 <= c < |Unheld(g)| then 1 else 0) && Unheld(h) == Unheld(g)
    {
      PileAfter(g, rand, c);
    }
    PileAfter(g, rand, 0);
  }

  lemma UnheldAreCards(g: Game)
    requires Shaped(g)
    ensures forall c :: c in Unheld(g) ==> 0 <= c < CARDS
  {
  }

  lemma {:induction false} SubsetFull<T>(a: set<T>, b: set<T>)
    requires a <= b && |a| == |b|
    ensures a == b
  {
    if a != {} {
      var x :| x in a;
      SubsetFull(a - {x}, b - {x});
    } else {
      SubsetCount(b, a + b);
    }
  }

  /** For instance, a card in the hand of a player in the game is dealt a second time
      after the reshuffle when its number is below the number of cards unheld. */
  lemma HeldCardReturns(g: Game, rand: Rand, s: nat, c: int)
    requires Shaped(g) && s < SEATS && Active(g.sizes, s) && c in g.hands[s] && 0 <= c < |Unheld(g)|
    ensures var h := Reshuffle(g, rand); c in h.hands[s] && Count(h.pile, h.left, c) == 1 && !WholeDeck(h)
  {
    PileAfter(g, rand, c);
    UnheldFits(g);
  }

  // ---------------------------------------------------------------------
  // The messages
  // ---------------------------------------------------------------------

  /** The two characters of `cards[id]`. */
  function Face(id: int): (char, char)
    requires 0 <= id < CARDS
  {
    var colours, values := "rygb", "123456789abc";
    if id < 4 then ('0', colours[id])
    else if id < 100 then (values[(id - 4) / 8], colours[(id - 4) % 8 / 2])
    else if id < 104 then ('d', 'x')
    else ('e', 'x')
  }

  /** The first card of that face in a hand, from `j` on. */
  function Find(hand: set<int>, face: (char, char), j: nat): (r: Option<nat>)
    requires j <= CARDS
    ensures r.Some? ==> j <= r.value < CARDS && r.value in hand && Face(r.value) == face
    ensures forall k :: j <= k < (if r.Some? then r.value else CARDS) ==> !(k in hand && Face(k) == face)
    decreases CARDS - j
  {
    if j == CARDS then None
    else if j in hand && Face(j) == face then Some(j)
    else Find(hand, face, j + 1)
  }

  /** A wild card is named with the colour it is to have. */
  function Wanted(name: (char, char)): (char, char) {
    if name.0 == 'd' || name.0 == 'e' then (name.0, 'x') else name
  }

  /** A message from the player at seat `i`, with the random numbers for reshuffles; or
      the end of a round of select, where the calls of that round are judged. */
  datatype Event =
    | Leave(i: nat)
    | Play(i: nat, name: (char, char), rands: Rands)
    | Skip(i: nat, rands: Rands)
    | Penalty(i: nat, rands: Rands)                          // a false "UNO"
    | CallUno(i: nat, stamp: int)                            // "UNO" for oneself
    | Accuse(i: nat, named: Option<nat>, stamp: int)         // "UNO" against another
    | EndRound(rands: Rands)

  predicate Here(g: Game, i: nat)
    requires Shaped(g)
  {
    i < SEATS && Active(g.sizes, i)
  }

  /** Messages come from players in the game. An accusation names one of them, unless a
      call is pending already. */
  predicate Enabled(g: Game, e: Event) {
    Shaped(g) && !g.over && !g.stuck &&
    match e
    case EndRound(_) => true
    case Accuse(i, named, _) =>
      Here(g, i) && (named.Some? ==> Here(g, named.value)) && (named.Some? || g.call.Some?)
    case _ => Here(g, e.i)
  }

  function Advance(g: Game): (h: Game)
    requires Shaped(g)
    ensures Shaped(h)
  {
    g.(seat := NextSeat(g.seat, g.sizes, g.turn))
  }

  /** Lines 466-484: the card leaves the hand, if the player has it. */
  function PutDown(g: Game, i: nat, name: (char, char)): (h: Game)
    requires Shaped(g) && i < SEATS
    ensures Shaped(h)
  {
    match Find(g.hands[i], Wanted(name), 0)
    case None => g.(table := g.cardId)
    case Some(j) =>
      g.(hands := g.hands[i := g.hands[i] - {j}], sizes := g.sizes[i := g.sizes[i] - 1],
         cardId := j, table := j, discard := g.discard + [j])
  }

  /** Draw two or four against the next player, who is then passed over. */
  function Punish(g: Game, n: nat, rands: Rands): (h: Game)
    requires Shaped(g)
    ensures Shaped(h)
  {
    var f := Advance(g);
    Advance(Give(f, f.seat, n, rands))
  }

  /** Lines 514-539: what the card on the table does. */
  function Effect(g: Game, rands: Rands): (h: Game)
    requires Shaped(g)
    ensures Shaped(h)
  {
    if 76 <= g.table < 84 then Advance(Advance(g))
    else if 84 <= g.table < 92 then
      var f := g.(turn := (g.turn + 1) % 2);
      if g.players > 2 then Advance(f) else f
    else if 92 <= g.table < 100 then Punish(g, 2, rands)
    else if 104 <= g.table < 108 then Punish(g, 4, rands)
    else Advance(g)
  }

  /** `u` may be called or caught: one card left, and not called yet. */
  predicate MayCall(g: Game, u: nat)
    requires Shaped(g) && u < SEATS
  {
    !g.isUno[u] && g.sizes[u] == 1
  }

  /** The first stamp of a round counts. */
  function Stamped(stamps: seq<int>, i: nat, stamp: int): (t: seq<int>)
    requires i < |stamps|
    ensures |t| == |stamps|
  {
    if stamps[i] == LONG_MAX then stamps[i := stamp] else stamps
  }

  /** Lines 564-574. */
  function CallFor(g: Game, i: nat, stamp: int): (h: Game)
    requires Shaped(g) && i < SEATS
    ensures Shaped(h)
  {
    if MayCall(g, i) then g.(call := Some(i), stamps := Stamped(g.stamps, i, stamp)) else g
  }

  /** Lines 589-614. */
  function AccuseOne(g: Game, i: nat, named: Option<nat>, stamp: int): (h: Game)
    requires Shaped(g) && i < SEATS && (named.Some? ==> named.value < SEATS) && (named.Some? || g.call.Some?)
    ensures Shaped(h)
  {
    var u := if g.call.Some? then g.call.value else named.value;
    if MayCall(g, u) then g.(call := Some(u), stamps := Stamped(g.stamps, i, stamp)) else g.(call := None)
  }

  /** The loop of lines 624-635 from seat `i` on. */
  function FastestFrom(hn: Sizes, stamps: seq<int>, u: nat, best: nat, i: nat): (f: nat)
    requires |stamps| == SEATS && best < SEATS && i <= SEATS
    ensures f < SEATS
    decreases SEATS - i
  {
    if i == SEATS then best
    else if hn[i] == GONE then FastestFrom(hn, stamps, u, best, i + 1)
    else if stamps[i] < stamps[best] || (stamps[i] == stamps[best] && i == u) then FastestFrom(hn, stamps, u, i, i + 1)
    else FastestFrom(hn, stamps, u, best, i + 1)
  }

  function Fastest(g: Game, u: nat): (f: nat)
    requires Shaped(g)
    ensures f < SEATS
  {
    FastestFrom(g.sizes, g.stamps, u, 0, 1)
  }

  /** Lines 621-654: the player called is safe or draws two; and lines 364-368. */
  function Judge(g: Game, rands: Rands): (h: Game)
    requires Shaped(g)
    ensures Shaped(h)
  {
    var f := if g.call.None? then g
      else if Fastest(g, g.call.value) == g.call.value then g.(isUno := g.isUno[g.call.value := true])
      else Give(g, g.call.value, 2, rands);
    f.(call := None, stamps := seq(SEATS, _ => LONG_MAX))
  }

  function Step(g: Game, e: Event): (h: Game)
    requires Enabled(g, e)
    ensures Shaped(h)
  {
    match e
    case Leave(i) =>
      var f := g.(sizes := g.sizes[i := GONE], players := g.players - 1);
      if f.players < 2 then f.(over := true) else if i == f.seat then Advance(f) else f
    case Play(i, name, rands) =>
      var f := PutDown(g, i, name);
      if f.sizes[i] <= 0 then f.(over := true) else Effect(f, rands)
    case Skip(_, rands) => Advance(Give(g, g.seat, 1, rands))
    case Penalty(i, rands) => Give(g, i, 2, rands)
    case CallUno(i, stamp) => CallFor(g, i, stamp)
    case Accuse(i, named, stamp) => AccuseOne(g, i, named, stamp)
    case EndRound(rands) => Judge(g, rands)
  }

  ghost predicate Reaches(g: Game, run: seq<Event>, h: Game)
    decreases |run|
  {
    if run == [] then h == g
    else Enabled(g, run[0]) && Reaches(Step(g, run[0]), run[1..], h)
  }

  // ---------------------------------------------------------------------
  // What every game keeps
  // ---------------------------------------------------------------------

  /** The player whose turn it is plays; everybody in the game has cards; `player_num`
      counts them. */
  predicate TurnOk(g: Game)
    requires Shaped(g)
  {
    && (g.turn == 0 || g.turn == 1) && g.players == |ActiveSeats(g.sizes)|
    && (!g.over ==> Active(g.sizes, g.seat) && AllHaveCards(g.sizes))
  }

  predicate AllHaveCards(hn: Sizes) {
    forall s :: 0 <= s < SEATS ==> hn[s] == GONE || hn[s] >= 1
  }

  ghost predicate CardsOk(g: Game)
    requires Shaped(g)
  {
    g.reshuffled || (Conserved(g) && Counted(g) && g.discard != [] && !g.stuck)
  }

  ghost predicate Inv(g: Game) {
    Shaped(g) && TurnOk(g) && CardsOk(g)
  }

  lemma SameActive(a: Sizes, b: Sizes)
    requires forall s :: 0 <= s < SEATS ==> (Active(a, s) <==> Active(b, s))
    ensures ActiveSeats(a) == ActiveSeats(b)
  {
  }

  lemma TakeKeepsInv(g: Game, seat: nat)
    requires Inv(g) && !g.over && g.left > 0 && seat < SEATS && Active(g.sizes, seat)
    ensures Inv(Take(g, seat))
  {
    hide Conserved;
    var h := Take(g, seat);
    SameActive(g.sizes, h.sizes);
    if !g.reshuffled {
      TakeConserves(g, seat);
    }
  }

  lemma DrawKeepsInv(g: Game, seat: nat, rand: Rand)
    requires Inv(g) && !g.over && seat < SEATS && Active(g.sizes, seat)
    ensures var h := Draw(g, seat, rand);
      Inv(h) && h.over == g.over && h.seat == g.seat && Active(h.sizes, seat)
  {
    hide Conserved, Counted;
    var f := if g.left == 0 then Reshuffle(g, rand) else g;
    if f.left > 0 {
      TakeKeepsInv(f, seat);
    }
  }

  lemma {:induction false} GiveKeepsInv(g: Game, seat: nat, n: nat, rands: Rands)
    requires Inv(g) && !g.over && seat < SEATS && Active(g.sizes, seat)
    ensures var h := Give(g, seat, n, rands); Inv(h) && h.over == g.over && h.seat == g.seat
    decreases n
  {
    hide TurnOk, CardsOk, Draw;
    if n > 0 && !g.stuck {
      DrawKeepsInv(g, seat, rands(n));
      GiveKeepsInv(Draw(g, seat, rands(n)), seat, n - 1, rands);
    }
  }

  /** As long as there has been no reshuffle a draw always finds a card: at least the
      cards played are unheld. */
  lemma FirstReshuffleSupplies(g: Game, seat: nat, rand: Rand)
    requires Inv(g) && !g.reshuffled && !g.stuck && seat < SEATS
    ensures !Draw(g, seat, rand).stuck
  {
    hide Held, Places;
    if g.left == 0 {
      DiscardUnheld(g, g.discard[|g.discard| - 1]);
    }
  }

  lemma DiscardUnheld(g: Game, c: int)
    requires Inv(g) && !g.reshuffled && c == g.discard[|g.discard| - 1]
    ensures c in Unheld(g) && |Unheld(g)| > 0
  {
    hide Held;
    assert Places(g, c) == 1;
    forall s | 0 <= s < SEATS && Active(g.sizes, s) ensures c !in g.hands[s] {
      HeldUpdate(g.hands, s, g.hands[s], c);
    }
  }

  /** Only the cards matter for `CardsOk`, and the sizes of the players still there. */
  lemma SameCards(g: Game, h: Game)
    requires Shaped(g) && Shaped(h) && CardsOk(g)
    requires (h.hands, h.pile, h.left, h.discard) == (g.hands, g.pile, g.left, g.discard)
    requires h.reshuffled == g.reshuffled && h.stuck == g.stuck
    requires forall s :: 0 <= s < SEATS && Active(h.sizes, s) ==> h.sizes[s] == g.sizes[s]
    ensures CardsOk(h)
  {
    forall c ensures Places(h, c) == Places(g, c) {
    }
  }

  lemma AdvanceKeepsInv(g: Game)
    requires Inv(g) && !g.over
    ensures Inv(Advance(g)) && !Advance(g).over
  {
    hide CardsOk, NextSeat;
    NextIsActive(g.seat, g.sizes, g.turn);
    SameCards(g, Advance(g));
  }

  lemma PunishKeepsInv(g: Game, n: nat, rands: Rands)
    requires Inv(g) && !g.over
    ensures Inv(Punish(g, n, rands))
  {
    hide CardsOk, Give, Advance;
    AdvanceKeepsInv(g);
    var f := Advance(g);
    GiveKeepsInv(f, f.seat, n, rands);
    AdvanceKeepsInv(Give(f, f.seat, n, rands));
  }

  lemma EffectKeepsInv(g: Game, rands: Rands)
    requires Inv(g) && !g.over
    ensures Inv(Effect(g, rands))
  {
    hide CardsOk, Punish, Advance;
    if 76 <= g.table < 84 {
      AdvanceKeepsInv(g);
      AdvanceKeepsInv(Advance(g));
    } else if 84 <= g.table < 92 {
      var f := g.(turn := (g.turn + 1) % 2);
      SameCards(g, f);
      AdvanceKeepsInv(f);
    } else if 92 <= g.table < 100 {
      PunishKeepsInv(g, 2, rands);
    } else if 104 <= g.table < 108 {
      PunishKeepsInv(g, 4, rands);
    } else {
      AdvanceKeepsInv(g);
    }
  }

  lemma {:induction false} CountAppend(d: seq<int>, n: nat, x: int, c: int)
    requires n <= |d|
    ensures Count(d + [x], n, c) == Count(d, n, c)
    ensures Count(d + [x], |d| + 1, c) == Count(d + [x], |d|, c) + if x == c then 1 else 0
  {
    CountSame(d + [x], d, n, c);
  }

  lemma PutDownMoves(g: Game, i: nat, name: (char, char), c: int)
    requires Shaped(g) && i < SEATS
    ensures Places(PutDown(g, i, name), c) == Places(g, c)
  {
    hide Held, Find;
    var r := Find(g.hands[i], Wanted(name), 0);
    if r.Some? {
      HeldUpdate(g.hands, i, g.hands[i] - {r.value}, c);
      CountAppend(g.discard, |g.discard|, r.value, c);
    }
  }

  lemma PutDownKeepsCards(g: Game, i: nat, name: (char, char))
    requires Inv(g) && !g.over && i < SEATS && Active(g.sizes, i)
    ensures CardsOk(PutDown(g, i, name))
  {
    hide Places, Find;
    var h := PutDown(g, i, name);
    if !g.reshuffled {
      forall c | 0 <= c < CARDS ensures Places(h, c) == 1 {
        PutDownMoves(g, i, name, c);
      }
    }
  }

  lemma PutDownKeepsInv(g: Game, i: nat, name: (char, char))
    requires Inv(g) && !g.over && i < SEATS && Active(g.sizes, i)
    ensures var h := PutDown(g, i, name);
      !h.over && h.sizes[i] >= 0 && Inv(if h.sizes[i] <= 0 then h.(over := true) else h)
  {
    hide CardsOk, TurnOk, PutDown;
    var h := PutDown(g, i, name);
    PutDownKeepsCards(g, i, name);
    SameCards(h, h.(over := true));
    PutDownKeepsTurn(g, i, name);
  }

  lemma PutDownKeepsTurn(g: Game, i: nat, name: (char, char))
    requires Shaped(g) && TurnOk(g) && !g.over && i < SEATS && Active(g.sizes, i)
    ensures var h := PutDown(g, i, name);
      !h.over && h.sizes[i] >= 0 && TurnOk(if h.sizes[i] <= 0 then h.(over := true) else h)
  {
    hide Find;
    SameActive(g.sizes, PutDown(g, i, name).sizes);
  }

  lemma LeaveKeepsInv(g: Game, i: nat)
    requires Inv(g) && Enabled(g, Leave(i))
    ensures Inv(Step(g, Leave(i)))
  {
    hide CardsOk, NextSeat;
    var f := g.(sizes := g.sizes[i := GONE], players := g.players - 1);
    assert ActiveSeats(f.sizes) == ActiveSeats(g.sizes) - {i};
    SameCards(g, f);
    SameCards(f, f.(over := true));
    SameCards(f, Advance(f));
    NextIsActive(f.seat, f.sizes, f.turn);
    if f.players >= 2 {
      AnotherActive(f.sizes, i);
    }
  }

  /** Two players: one of them is not at seat `i`. */
  lemma AnotherActive(hn: Sizes, i: int)
    requires |ActiveSeats(hn)| >= 2
    ensures exists s :: 0 <= s < SEATS && s != i && Active(hn, s)
  {
    if forall s :: s in ActiveSeats(hn) ==> s == i {
      SubsetCount(ActiveSeats(hn), {i});
    }
  }

  /** A call is judged fairly when it leads to no draw for a player who has left. */
  predicate Fair(g: Game, e: Event)
    requires Shaped(g)
  {
    e.EndRound? && g.call.Some? ==> Active(g.sizes, g.call.value) || Fastest(g, g.call.value) == g.call.value
  }

  lemma JudgeKeepsInv(g: Game, rands: Rands)
    requires Inv(g) && !g.over && Fair(g, EndRound(rands))
    ensures Inv(Judge(g, rands))
  {
    hide CardsOk, TurnOk, Give, Fastest;
    var f := if g.call.None? then g
      else if Fastest(g, g.call.value) == g.call.value then g.(isUno := g.isUno[g.call.value := true])
      else Give(g, g.call.value, 2, rands);
    if g.call.Some? && Fastest(g, g.call.value) != g.call.value {
      GiveKeepsInv(g, g.call.value, 2, rands);
    } else {
      CallsDontMatter(g, f);
    }
    CallsDontMatter(f, Judge(g, rands));
  }

  /** Calls and stamps concern neither cards nor turns. */
  lemma CallsDontMatter(g: Game, h: Game)
    requires Inv(g) && Shaped(h) && h == g.(isUno := h.isUno, call := h.call, stamps := h.stamps)
    ensures Inv(h)
  {
    hide CardsOk;
    SameCards(g, h);
  }

  lemma StepKeepsInv(g: Game, e: Event)
    requires Inv(g) && Enabled(g, e) && Fair(g, e)
    ensures Inv(Step(g, e))
  {
    hide CardsOk, TurnOk, PutDown, Effect, Advance, Give, Judge, Fair;
    match e
    case Leave(i) => LeaveKeepsInv(g, i);
    case Play(i, name, rands) =>
      PutDownKeepsInv(g, i, name);
      if PutDown(g, i, name).sizes[i] > 0 {
        EffectKeepsInv(PutDown(g, i, name), rands);
      }
    case Skip(_, rands) =>
      TurnIsActive(g);
      GiveKeepsInv(g, g.seat, 1, rands);
      AdvanceKeepsInv(Give(g, g.seat, 1, rands));
    case Penalty(i, rands) => GiveKeepsInv(g, i, 2, rands);
    case CallUno(i, stamp) => CallsDontMatter(g, CallFor(g, i, stamp));
    case Accuse(i, named, stamp) => CallsDontMatter(g, AccuseOne(g, i, named, stamp));
    case EndRound(rands) => JudgeKeepsInv(g, rands);
  }

  lemma TurnIsActive(g: Game)
    requires Inv(g) && !g.over
    ensures Active(g.sizes, g.seat)
  {
  }

  /** Every call of the run is judged fairly. */
  predicate FairRun(g: Game, run: seq<Event>)
    decreases |run|
  {
    run == [] || (Enabled(g, run[0]) && Fair(g, run[0]) && FairRun(Step(g, run[0]), run[1..]))
  }

  lemma {:induction false} RunKeepsInv(g: Game, run: seq<Event>, h: Game)
    requires Inv(g) && Reaches(g, run, h) && FairRun(g, run)
    ensures Inv(h)
    decreases |run|
  {
    hide Inv, Step, Fair;
    if run != [] {
      StepKeepsInv(g, run[0]);
      RunKeepsInv(Step(g, run[0]), run[1..], h);
    }
  }
}

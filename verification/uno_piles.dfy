/** The piles of the UNO game (tcpcliserv/final_server.c): what `shuffle` can come to, and
    how many cards a reshuffle finds. */
module UnoPiles {
  import opened Wrappers
  import opened UnoTurn
  import opened UnoSpec
  import opened UnoCalls
  import opened UnoDeal

  // ---------------------------------------------------------------------
  // Every order is possible
  // ---------------------------------------------------------------------

  lemma {:induction false} SameChoices(a: seq<int>, i: nat, r: Rand, q: Rand)
    requires (i < |a| || i == 0) && forall k: nat :: k <= i ==> r(k) == q(k)
    ensures Exchanges(a, i, r) == Exchanges(a, i, q)
    decreases i
  {
    if i > 0 {
      SameChoices(Swap(a, i, r(i) % (i + 1)), i - 1, r, q);
    }
  }

  lemma SwapFront(a: seq<int>, i: nat, j: nat)
    requires j <= i < |a|
    ensures var b := Swap(a, i, j);
      multiset(b[..i]) == multiset(a[..i + 1]) - multiset{a[j]} && b[i] == a[j] && b[i + 1..] == a[i + 1..]
  {
    var b, f := Swap(a, i, j), a[..i + 1];
    SwapMultiset(f, i, j);
    assert b[..i + 1] == Swap(f, i, j);
    assert b[..i + 1] == b[..i] + [b[i]];
  }

  lemma SwapMultiset(f: seq<int>, i: nat, j: nat)
    requires i < |f| && j < |f|
    ensures multiset(Swap(f, i, j)) == multiset(f)
  {
  }

  /** What is left to arrange when the entry that belongs at `i` has been put there. */
  lemma ArrangeOne(a: seq<int>, p: seq<int>, i: nat, j: nat)
    requires |a| == |p| && j <= i < |a| && a[i + 1..] == p[i + 1..] && a[j] == p[i]
    requires multiset(a[..i + 1]) == multiset(p[..i + 1])
    ensures var b := Swap(a, i, j); b[i..] == p[i..] && multiset(b[..i]) == multiset(p[..i])
  {
    hide Swap;
    SwapFront(a, i, j);
    var b := Swap(a, i, j);
    assert b[i..] == [b[i]] + b[i + 1..] && p[i..] == [p[i]] + p[i + 1..];
    assert p[..i + 1] == p[..i] + [p[i]];
  }

  lemma Somewhere(a: seq<int>, p: seq<int>, i: nat) returns (j: nat)
    requires |a| == |p| && i < |a| && multiset(a[..i + 1]) == multiset(p[..i + 1])
    ensures j <= i && a[j] == p[i]
  {
    assert p[..i + 1][i] in multiset(a[..i + 1]);
    j :| 0 <= j <= i && a[..i + 1][j] == p[i];
  }

  lemma ExchangeAt(a: seq<int>, i: nat, j: nat, rand: Rand)
    requires 0 < i < |a| && j <= i && rand(i) == j
    ensures Exchanges(a, i, rand) == Exchanges(Swap(a, i, j), i - 1, rand)
  {
    assert j % (i + 1) == j;
  }

  /** One choice more. */
  lemma ChooseOne(a: seq<int>, i: nat, j: nat, rest: Rand, rand: Rand)
    requires 0 < i < |a| && j <= i && rand(i) == j && forall k: nat :: k < i ==> rand(k) == rest(k)
    ensures Exchanges(a, i, rand) == Exchanges(Swap(a, i, j), i - 1, rest)
  {
    hide Exchanges;
    ExchangeAt(a, i, j, rand);
    SameChoices(Swap(a, i, j), i - 1, rand, rest);
  }

  lemma OnlyOne(a: seq<int>, p: seq<int>, rand: Rand)
    requires |a| == |p| > 0 && a[0] == p[0] && a[1..] == p[1..]
    ensures Exchanges(a, 0, rand) == p
  {
    assert a == [a[0]] + a[1..] && p == [p[0]] + p[1..];
  }

  /** Choices that arrange the first `i` + 1 entries of `a` as in `p`. */
  lemma {:induction false} Arrange(a: seq<int>, p: seq<int>, i: nat) returns (rand: Rand)
    requires |a| == |p| && i < |a| && a[i + 1..] == p[i + 1..]
    requires multiset(a[..i + 1]) == multiset(p[..i + 1])
    ensures Exchanges(a, i, rand) == p
    decreases i
  {
    hide Swap, Exchanges;
    var j := Somewhere(a, p, i);
    if i == 0 {
      rand := k => 0;
      OnlyOne(a, p, rand);
    } else {
      ArrangeOne(a, p, i, j);
      var rest := Arrange(Swap(a, i, j), p, i - 1);
      rand := k => if k == i then j else rest(k);
      ChooseOne(a, i, j, rest, rand);
    }
  }

  /** Every order of the numbers 0 to n - 1 comes of some random numbers. */
  lemma EveryOrder(n: nat, p: seq<int>)
    requires |p| == n && multiset(p) == multiset(Iota(n))
    ensures exists rand: Rand :: Shuffle(n, rand) == p
  {
    if n == 0 {
      var rand: Rand := k => 0;
      assert Shuffle(0, rand) == p;
    } else {
      assert Iota(n)[..n - 1 + 1] == Iota(n) && p[..n - 1 + 1] == p;
      var rand := Arrange(Iota(n), p, n - 1);
      assert Shuffle(n, rand) == p;
    }
  }

  /** So every order of the whole deck can be dealt from... */
  lemma EveryDeal(n: nat, p: seq<int>, cardId: int, used: Seats, seat: nat)
    requires n == CARDS && |p| == CARDS && multiset(p) == multiset(Iota(n)) && seat < SEATS
    ensures exists rand: Rand ::
      Opened(n, rand, cardId, used, seat) ==
        TurnUp(Deal(p, cardId, used, SEATS)).(seat := seat, players := Rank(used, SEATS))
  {
    hide Shuffle, Deal, TurnUp;
    EveryOrder(n, p);
    var rand: Rand :| Shuffle(n, rand) == p;
    assert Opened(n, rand, cardId, used, seat) ==
      TurnUp(Deal(p, cardId, used, SEATS)).(seat := seat, players := Rank(used, SEATS));
  }

  /** ...and after a reshuffle every order of that many numbers lies in the pile. */
  lemma EveryPile(g: Game, p: seq<int>)
    requires Shaped(g) && |p| == |Unheld(g)| && multiset(p) == multiset(Iota(|p|))
    ensures exists rand: Rand :: Reshuffle(g, rand).left == |p| && Reshuffle(g, rand).pile[..|p|] == p
  {
    hide Shuffle, Unheld;
    EveryOrder(|p|, p);
    var rand: Rand :| Shuffle(|p|, rand) == p;
    assert Reshuffle(g, rand).left == |p| && Reshuffle(g, rand).pile[..|p|] == p;
  }

  // ---------------------------------------------------------------------
  // How many cards come back
  // ---------------------------------------------------------------------

  /** The cards of the players in the game at the first `n` seats. */
  function InPlay(g: Game, n: nat): set<int>
    requires Shaped(g) && n <= SEATS
  {
    if n == 0 then {} else InPlay(g, n - 1) + if Active(g.sizes, n - 1) then g.hands[n - 1] else {}
  }

  /** The sum of their counts. */
  function Total(hn: Sizes, n: nat): int
    requires n <= SEATS
  {
    if n == 0 then 0 else Total(hn, n - 1) + if Active(hn, n - 1) then hn[n - 1] else 0
  }

  lemma {:induction false} InPlayIs(g: Game, n: nat, c: int)
    requires Shaped(g) && n <= SEATS
    ensures c in InPlay(g, n) <==> exists s :: 0 <= s < n && Active(g.sizes, s) && c in g.hands[s]
  {
    if n > 0 {
      InPlayIs(g, n - 1, c);
    }
  }

  lemma TwoHands(hands: seq<set<int>>, s: nat, t: nat, c: int)
    requires s < t < |hands| && c in hands[s] && c in hands[t]
    ensures Held(hands, c) >= 2
  {
    hide Held;
    var h := hands[s := hands[s] - {c}];
    HeldUpdate(hands, s, hands[s] - {c}, c);
    HeldUpdate(h, t, h[t], c);
  }

  lemma {:induction false} InPlayCount(g: Game, n: nat)
    requires Inv(g) && !g.reshuffled && n <= SEATS
    ensures |InPlay(g, n)| == Total(g.sizes, n) && InPlay(g, n) <= Below(CARDS)
  {
    hide Below, Inv, Conserved, Counted, InPlay, Total;
    InvParts(g);
    InPlayStep(g, n);
    if n > 0 {
      InPlayCount(g, n - 1);
      HandAt(g, n - 1);
      ApartFrom(g, n - 1);
      UnionCount(InPlay(g, n - 1), g.hands[n - 1]);
    }
  }

  lemma InPlayStep(g: Game, n: nat)
    requires Shaped(g) && n <= SEATS
    ensures n == 0 ==> InPlay(g, n) == {} && Total(g.sizes, n) == 0
    ensures n > 0 && Active(g.sizes, n - 1) ==>
      InPlay(g, n) == InPlay(g, n - 1) + g.hands[n - 1] && Total(g.sizes, n) == Total(g.sizes, n - 1) + g.sizes[n - 1]
    ensures n > 0 && !Active(g.sizes, n - 1) ==>
      InPlay(g, n) == InPlay(g, n - 1) && Total(g.sizes, n) == Total(g.sizes, n - 1)
  {
  }

  lemma UnionCount<T>(a: set<T>, b: set<T>)
    requires a !! b
    ensures |a + b| == |a| + |b|
  {
  }

  lemma HandAt(g: Game, s: nat)
    requires Inv(g) && !g.reshuffled && s < SEATS
    ensures Shaped(g) && Conserved(g) && g.hands[s] <= Below(CARDS)
    ensures Active(g.sizes, s) ==> g.sizes[s] == |g.hands[s]|
  {
    hide Held, Places;
  }

  lemma Member<T>(s: set<T>) returns (x: T)
    requires s != {}
    ensures x in s
  {
    x :| x in s;
  }

  lemma ApartFrom(g: Game, n: nat)
    requires Shaped(g) && Conserved(g) && n < SEATS
    ensures InPlay(g, n) !! g.hands[n]
  {
    hide Held, Conserved;
    var both := InPlay(g, n) * g.hands[n];
    if both != {} {
      var c := Member(both);
      InPlayIs(g, n, c);
      var s :| 0 <= s < n && Active(g.sizes, s) && c in g.hands[s];
      HeldOnce(g, c);
      TwoHands(g.hands, s, n, c);
    }
  }

  lemma InvParts(g: Game)
    requires Inv(g) && !g.reshuffled
    ensures Shaped(g) && Counted(g) && Conserved(g)
  {
  }

  lemma HeldOnce(g: Game, c: int)
    requires Shaped(g) && Conserved(g) && exists s :: 0 <= s < SEATS && c in g.hands[s]
    ensures Held(g.hands, c) <= 1
  {
    hide Held;
    var s :| 0 <= s < SEATS && c in g.hands[s];
    assert Places(g, c) == 1;
  }

  /** The first reshuffle makes a pile of as many cards as the players in the game do not
      hold: those of departed players come back with those played. */
  lemma ReshuffleCount(g: Game, rand: Rand)
    requires Inv(g) && !g.reshuffled
    ensures Reshuffle(g, rand).left == CARDS - Total(g.sizes, SEATS)
  {
    hide Below, Shuffle, Inv;
    InvParts(g);
    InPlayCount(g, SEATS);
    var held := InPlay(g, SEATS);
    forall c ensures c in Unheld(g) <==> c in Below(CARDS) && c !in held {
      InPlayIs(g, SEATS, c);
    }
    assert Unheld(g) == Below(CARDS) - held;
    assert Below(CARDS) == (Below(CARDS) - held) + held;
  }
}

/** Whose turn it is in the UNO game of tcpcliserv/final_server.c: `SwitchToNextPlayer`
    walks the ten seats, skipping those without a player. */
module UnoTurn {

  const SEATS: nat := 10
  const GONE: int := -1   // hand_num of an empty seat or of a player who left

  /** The hand sizes of the ten seats. */
  type Sizes = s: seq<int> | |s| == SEATS witness seq(SEATS, _ => GONE)

  predicate Active(hn: Sizes, seat: int)
    requires 0 <= seat < SEATS
  {
    hn[seat] != GONE
  }

  /** The seat `k` places on from `w`; upwards when `turn` is 0, else downwards. */
  function At(w: nat, k: nat, turn: int): (s: nat)
    requires w < SEATS && k <= SEATS
    ensures s < SEATS && s == if turn == 0 then (w + k) % SEATS else (w + SEATS - k) % SEATS
  {
    if turn == 0 then if w + k >= SEATS then w + k - SEATS else w + k
    else if w >= k then w - k else w + SEATS - k
  }

  /** How far the next player is, `k` places having been ruled out; all the way round when
      there is no other. */
  function GapFrom(w: nat, hn: Sizes, k: nat, turn: int): (g: nat)
    requires w < SEATS && 1 <= k <= SEATS
    ensures k <= g <= SEATS && (g < SEATS ==> Active(hn, At(w, g, turn)))
    ensures forall m :: k <= m < g ==> !Active(hn, At(w, m, turn))
    decreases SEATS - k
  {
    if k == SEATS || Active(hn, At(w, k, turn)) then k else GapFrom(w, hn, k + 1, turn)
  }

  function Gap(w: nat, hn: Sizes, turn: int): nat
    requires w < SEATS
  {
    GapFrom(w, hn, 1, turn)
  }

  function NextSeat(w: nat, hn: Sizes, turn: int): (s: nat)
    requires w < SEATS
    ensures s < SEATS
  {
    At(w, Gap(w, hn, turn), turn)
  }

  /** Only the first player met in that direction is next. */
  lemma GapIs(w: nat, hn: Sizes, turn: int, g: nat)
    requires w < SEATS && 1 <= g <= SEATS && (g < SEATS ==> Active(hn, At(w, g, turn)))
    requires forall m :: 1 <= m < g ==> !Active(hn, At(w, m, turn))
    ensures Gap(w, hn, turn) == g
  {
  }

  lemma AtAt(w: nat, p: nat, m: nat, turn: int)
    requires w < SEATS && p + m <= SEATS
    ensures At(At(w, p, turn), m, turn) == At(w, p + m, turn)
  {
  }

  lemma AtBack(w: nat, p: nat, m: nat, turn: int)
    requires w < SEATS && m <= p <= SEATS && (turn == 0 || turn == 1)
    ensures At(At(w, p, turn), m, 1 - turn) == At(w, p - m, turn)
  {
  }

  lemma AtRound(w: nat, turn: int)
    requires w < SEATS
    ensures At(w, 0, turn) == w && At(w, SEATS, turn) == w
  {
  }

  /** The next seat is a player's seat, and another's if there is another player. */
  lemma NextIsActive(w: nat, hn: Sizes, turn: int)
    requires w < SEATS
    ensures forall s :: 0 <= s < SEATS && s != w && Active(hn, s) ==>
      Active(hn, NextSeat(w, hn, turn)) && NextSeat(w, hn, turn) != w
    ensures Active(hn, w) ==> Active(hn, NextSeat(w, hn, turn))
  {
    AtRound(w, turn);
    forall s | 0 <= s < SEATS && s != w && Active(hn, s)
      ensures Active(hn, NextSeat(w, hn, turn)) && NextSeat(w, hn, turn) != w
    {
      var k :=
        if (turn == 0) == (s > w) then (if s > w then s - w else w - s)
        else if s > w then SEATS + w - s
        else SEATS + s - w;
      assert At(w, k, turn) == s && 1 <= k < SEATS;
    }
  }

  /** The opposite direction goes back to where one came from. */
  lemma DirectionsUndo(w: nat, hn: Sizes, turn: int)
    requires w < SEATS && Active(hn, w) && (turn == 0 || turn == 1)
    ensures NextSeat(NextSeat(w, hn, turn), hn, 1 - turn) == w
  {
    hide At, GapFrom;
    GapUndo(w, hn, turn, Gap(w, hn, turn));
  }

  lemma GapUndo(w: nat, hn: Sizes, turn: int, g: nat)
    requires w < SEATS && Active(hn, w) && (turn == 0 || turn == 1) && g == Gap(w, hn, turn)
    ensures Gap(At(w, g, turn), hn, 1 - turn) == g && At(At(w, g, turn), g, 1 - turn) == w
  {
    var r := At(w, g, turn);
    var back := 1 - turn;
    forall m | 1 <= m < g ensures !Active(hn, At(r, m, back)) {
      AtBack(w, g, m, turn);
    }
    AtBack(w, g, g, turn);
    AtRound(w, turn);
    GapIs(r, hn, 1 - turn, g);
  }

  /** Hence no two players have the same successor. */
  lemma NextIsInjective(v: nat, w: nat, hn: Sizes, turn: int)
    requires v < SEATS && w < SEATS && Active(hn, v) && Active(hn, w) && (turn == 0 || turn == 1)
    requires NextSeat(v, hn, turn) == NextSeat(w, hn, turn)
    ensures v == w
  {
    hide NextSeat;
    DirectionsUndo(v, hn, turn);
    DirectionsUndo(w, hn, turn);
  }

  // ---------------------------------------------------------------------
  // Once round the table
  // ---------------------------------------------------------------------

  /** `m` turns on. */
  function Turns(w: nat, hn: Sizes, turn: int, m: nat): (s: nat)
    requires w < SEATS
    ensures s < SEATS
  {
    if m == 0 then w else NextSeat(Turns(w, hn, turn, m - 1), hn, turn)
  }

  /** The distances, from `d` to once round, at which players sit. */
  function Players(w: nat, hn: Sizes, turn: int, d: nat): (o: seq<nat>)
    requires w < SEATS && 1 <= d
    ensures forall i :: 0 <= i < |o| ==> d <= o[i] <= SEATS && Active(hn, At(w, o[i], turn))
    ensures forall i, j :: 0 <= i < j < |o| ==> o[i] < o[j]
    ensures forall k :: d <= k <= SEATS && Active(hn, At(w, k, turn)) ==> k in o
    decreases SEATS + 1 - d
  {
    if d > SEATS then []
    else if Active(hn, At(w, d, turn)) then [d] + Players(w, hn, turn, d + 1)
    else Players(w, hn, turn, d + 1)
  }

  lemma PlayersEnd(w: nat, hn: Sizes, turn: int)
    requires w < SEATS && Active(hn, w)
    ensures var o := Players(w, hn, turn, 1); o != [] && o[|o| - 1] == SEATS
  {
    AtRound(w, turn);
    var o := Players(w, hn, turn, 1);
    assert SEATS in o;
  }

  /** From one player the next turn is the next player's. */
  lemma NextPlayer(w: nat, hn: Sizes, turn: int, p: nat, q: nat)
    requires w < SEATS && p < q <= SEATS && (q < SEATS ==> Active(hn, At(w, q, turn)))
    requires q - p < SEATS || p == 0
    requires forall k :: p < k < q ==> !Active(hn, At(w, k, turn))
    requires q < SEATS || Active(hn, At(w, q, turn))
    ensures NextSeat(At(w, p, turn), hn, turn) == At(w, q, turn)
  {
    var r := At(w, p, turn);
    forall m | 1 <= m < q - p ensures !Active(hn, At(r, m, turn)) {
      AtAt(w, p, m, turn);
    }
    AtAt(w, p, q - p, turn);
    GapIs(r, hn, turn, q - p);
  }

  lemma SkippedOver(o: seq<nat>, m: nat, k: nat)
    requires 1 <= m <= |o| && (if m == 1 then 0 else o[m - 2]) < k < o[m - 1]
    requires forall i, j :: 0 <= i < j < |o| ==> o[i] < o[j]
    ensures k !in o
  {
    forall i | 0 <= i < |o| ensures o[i] != k {
      assert i < m - 1 ==> o[i] <= o[m - 2];
    }
  }

  lemma {:induction false} TurnsAre(w: nat, hn: Sizes, turn: int, m: nat)
    requires w < SEATS && Active(hn, w) && 1 <= m <= |Players(w, hn, turn, 1)|
    ensures Turns(w, hn, turn, m) == At(w, Players(w, hn, turn, 1)[m - 1], turn)
  {
    hide At, Players, NextSeat;
    var o := Players(w, hn, turn, 1);
    var p := if m == 1 then 0 else o[m - 2];
    AtRound(w, turn);
    if m > 1 {
      TurnsAre(w, hn, turn, m - 1);
    }
    forall k | p < k < o[m - 1] ensures !Active(hn, At(w, k, turn)) {
      SkippedOver(o, m, k);
    }
    NextPlayer(w, hn, turn, p, o[m - 1]);
  }

  lemma AtInjective(w: nat, j: nat, k: nat, turn: int)
    requires w < SEATS && 1 <= j < k <= SEATS
    ensures At(w, j, turn) != At(w, k, turn)
  {
  }

  function ActiveSeats(hn: Sizes): set<int> {
    set s | 0 <= s < SEATS && Active(hn, s)
  }

  /** As many distances as players. */
  lemma PlayersCount(w: nat, hn: Sizes, turn: int)
    requires w < SEATS
    ensures |Players(w, hn, turn, 1)| == |ActiveSeats(hn)|
  {
    hide Players;
    var o := Players(w, hn, turn, 1);
    var seats := seq(|o|, i requires 0 <= i < |o| => At(w, o[i], turn));
    forall i, j | 0 <= i < j < |o| ensures seats[i] != seats[j] {
      AtInjective(w, o[i], o[j], turn);
    }
    forall s | s in ActiveSeats(hn) ensures s in seats {
      var k := DistanceTo(w, s, turn);
      assert k in o;
      var i :| 0 <= i < |o| && o[i] == k;
      assert seats[i] == s;
    }
    assert forall i :: 0 <= i < |o| ==> seats[i] in ActiveSeats(hn);
    CountDistinct(seats, ActiveSeats(hn));
  }

  /** How far a seat is, 1 to 10. */
  function DistanceTo(w: nat, s: nat, turn: int): (k: nat)
    requires w < SEATS && s < SEATS
    ensures 1 <= k <= SEATS && At(w, k, turn) == s
  {
    if turn == 0 then if s > w then s - w else SEATS + s - w
    else if w > s then w - s else SEATS + w - s
  }

  lemma {:induction false} CountDistinct(q: seq<int>, ss: set<int>)
    requires forall i, j :: 0 <= i < j < |q| ==> q[i] != q[j]
    requires (forall i :: 0 <= i < |q| ==> q[i] in ss) && forall s :: s in ss ==> s in q
    ensures |q| == |ss|
  {
    if q == [] {
      forall s | s in ss ensures s in q {
      }
      assert ss == {};
    } else {
      var n := |q| - 1;
      forall s | s in ss - {q[n]} ensures s in q[..n] {
        var i :| 0 <= i < |q| && q[i] == s;
        assert q[..n][i] == s;
      }
      CountDistinct(q[..n], ss - {q[n]});
    }
  }

  ghost predicate Visited(w: nat, hn: Sizes, turn: int, n: nat, s: int)
    requires w < SEATS
  {
    exists m: nat :: 1 <= m <= n && Turns(w, hn, turn, m) == s
  }

  /** As many turns as there are players bring each of them the turn once, and back to
      the first. */
  lemma OnceRound(w: nat, hn: Sizes, turn: int)
    requires w < SEATS && Active(hn, w)
    ensures var n := |ActiveSeats(hn)|;
      && Turns(w, hn, turn, n) == w
      && (forall s :: s in ActiveSeats(hn) ==> Visited(w, hn, turn, n, s))
      && forall i, j :: 1 <= i < j <= n ==> Turns(w, hn, turn, i) != Turns(w, hn, turn, j)
  {
    hide Players, Turns, NextSeat, At;
    var o, n := Players(w, hn, turn, 1), |ActiveSeats(hn)|;
    PlayersCount(w, hn, turn);
    PlayersEnd(w, hn, turn);
    AtRound(w, turn);
    TurnsAre(w, hn, turn, n);
    forall s | s in ActiveSeats(hn) ensures Visited(w, hn, turn, n, s) {
      var k := DistanceTo(w, s, turn);
      assert k in o;
      var i :| 0 <= i < |o| && o[i] == k;
      var m := i + 1;
      TurnsAre(w, hn, turn, m);
      assert 1 <= m <= n && Turns(w, hn, turn, m) == s;
    }
    forall i, j | 1 <= i < j <= n ensures Turns(w, hn, turn, i) != Turns(w, hn, turn, j) {
      TurnsAre(w, hn, turn, i);
      TurnsAre(w, hn, turn, j);
      AtInjective(w, o[i - 1], o[j - 1], turn);
    }
  }

  /** One round of the loops. */
  lemma GapStep(w: nat, hn: Sizes, k: nat, turn: int)
    requires w < SEATS && 1 <= k <= SEATS
    ensures k == SEATS ==> At(w, k, turn) == w && GapFrom(w, hn, k, turn) == SEATS
    ensures k < SEATS ==> At(w, k, turn) != w
    ensures k < SEATS ==> At(w, k + 1, turn) == (At(w, k, turn) + if turn == 0 then 1 else 9) % SEATS
    ensures k < SEATS ==>
      GapFrom(w, hn, k, turn) == if hn[At(w, k, turn)] == GONE then GapFrom(w, hn, k + 1, turn) else k
  {
  }

  lemma GapStart(w: nat, turn: int)
    requires w < SEATS
    ensures At(w, 1, turn) == (w + if turn == 0 then 1 else 9) % SEATS
  {
  }

  /** `SwitchToNextPlayer`. */
  method SwitchToNextPlayer(whoseRound: nat, handNum: array<int>, turn: int) returns (next: nat)
    requires whoseRound < SEATS && handNum.Length == SEATS
    ensures next == NextSeat(whoseRound, handNum[..], turn)
  {
    hide At, GapFrom;
    next := whoseRound;
    ghost var hn: Sizes, k: nat := handNum[..], 1;
    GapStart(whoseRound, turn);
    if turn == 0 {
      var j := (whoseRound + 1) % SEATS;
      GapStep(whoseRound, hn, k, turn);
      while j != whoseRound
        invariant 1 <= k <= SEATS && j == At(whoseRound, k, turn) && next == whoseRound
        invariant j == whoseRound ==> k == SEATS
        invariant GapFrom(whoseRound, hn, k, turn) == Gap(whoseRound, hn, turn)
        decreases SEATS - k
      {
        GapStep(whoseRound, hn, k, turn);
        if handNum[j] == GONE {
          j := (j + 1) % SEATS;
          k := k + 1;
          GapStep(whoseRound, hn, k, turn);
          continue;
        }
        return j;
      }
      GapStep(whoseRound, hn, k, turn);
    } else {
      var j := (whoseRound + 9) % SEATS;
      GapStep(whoseRound, hn, k, turn);
      while j != whoseRound
        invariant 1 <= k <= SEATS && j == At(whoseRound, k, turn) && next == whoseRound
        invariant j == whoseRound ==> k == SEATS
        invariant GapFrom(whoseRound, hn, k, turn) == Gap(whoseRound, hn, turn)
        decreases SEATS - k
      {
        GapStep(whoseRound, hn, k, turn);
        if handNum[j] == GONE {
          j := (j + 9) % SEATS;
          k := k + 1;
          GapStep(whoseRound, hn, k, turn);
          continue;
        }
        return j;
      }
      GapStep(whoseRound, hn, k, turn);
    }
  }
}

/** The preforked server whose parent accepts (server/serv05.c) and passes each descriptor
    over a stream pipe to an idle child (server/child05.c): a step system over every
    interleaving of the parent with its children. No child dies. */
module PreforkSpec {
  import opened Wrappers
  import PoolSpec

  /** `status` and `count` are the parent's fields; `inbox` and `ready` are the two
      directions of the pipe: descriptors not yet received, ready bytes not yet read. */
  datatype Child = Child(status: int, count: nat, inbox: seq<int>, serving: Option<int>, ready: nat,
                         served: seq<int>)

  /** Where the parent is: about to select, holding select's result with the listening
      descriptor in it, or at child `i` of the loop that looks for ready children. */
  datatype Phase =
    | AtSelect
    | Chosen(rset: seq<bool>, nsel: int)
    | Scanning(i: nat, rset: seq<bool>, nsel: int)

  /** `accepted` records which child each connection went to; `reported` and `collected`
      count, child by child, how often select has named it ready and how many of its ready
      bytes have been read. */
  datatype Server = Server(children: seq<Child>, navail: int, phase: Phase, quit: bool,
                           accepted: seq<(nat, int)>, reported: seq<nat>, collected: seq<nat>)

  datatype Event =
    | Select(conn: bool, bits: seq<bool>)   // which descriptors it names
    | Accept(connfd: int)                   // lines 51-67 of serv05.c
    | Scan                                  // one round of lines 71-80
    | Take(c: nat)                          // child c receives a descriptor
    | Done(c: nat)                          // child c closes it and writes its byte

  /** The bits set from place `i` on. */
  function Bits(r: seq<bool>, i: nat): nat
    decreases |r| - i
  {
    if i >= |r| then 0 else Bits(r, i + 1) + if r[i] then 1 else 0
  }

  /** One more for every place whose bit is set. */
  function Named(a: seq<nat>, bits: seq<bool>): (b: seq<nat>)
    ensures |b| == |a|
  {
    seq(|a|, k requires 0 <= k < |a| => a[k] + if k < |bits| && bits[k] then 1 else 0)
  }

  /** One more at place `i`. */
  function Read(a: seq<nat>, i: nat): (b: seq<nat>)
    ensures |b| == |a|
  {
    if i < |a| then a[i := a[i] + 1] else a
  }

  function FirstFree(cs: seq<Child>): (i: nat)
    ensures i <= |cs| && (i < |cs| ==> cs[i].status == 0) && forall k :: 0 <= k < i ==> cs[k].status != 0
  {
    if cs == [] then 0 else if cs[0].status == 0 then 0 else
      var j := FirstFree(cs[1..]);
      assert forall k :: 1 <= k < 1 + j ==> cs[k] == cs[1..][k - 1];
      1 + j
  }

  /** select names only descriptors with something to read, at least one, and the
      listening one only when it was left in the set. */
  predicate Enabled(s: Server, e: Event) {
    !s.quit &&
    match e
    case Select(conn, bits) =>
      && s.phase.AtSelect? && |bits| == |s.children| && (conn ==> s.navail > 0)
      && (forall k :: 0 <= k < |bits| && bits[k] ==> s.children[k].ready > 0)
      && (conn || Bits(bits, 0) > 0)
    case Accept(_) => s.phase.Chosen?
    case Scan =>
      && s.phase.Scanning? && |s.phase.rset| == |s.children|
      && (s.phase.i < |s.children| && s.phase.rset[s.phase.i] ==> s.children[s.phase.i].ready > 0)   // Read blocks
    case Take(c) => c < |s.children| && s.children[c].inbox != [] && s.children[c].serving.None?
    case Done(c) => c < |s.children| && s.children[c].serving.Some?
  }

  function AcceptStep(s: Server, connfd: int): Server
    requires s.phase.Chosen?
  {
    var i := FirstFree(s.children);
    if i == |s.children| then s.(quit := true)
    else
      var c := s.children[i];
      var nsel := s.phase.nsel - 1;
      s.(children := s.children[i := c.(status := 1, count := c.count + 1, inbox := c.inbox + [connfd])],
         navail := s.navail - 1, accepted := s.accepted + [(i, connfd)],
         phase := if nsel == 0 then AtSelect else Scanning(0, s.phase.rset, nsel))
  }

  function ScanStep(s: Server): Server
    requires Enabled(s, Scan)
  {
    var Scanning(i, rset, nsel) := s.phase;
    if i >= |s.children| then s.(phase := AtSelect)
    else if !rset[i] then s.(phase := Scanning(i + 1, rset, nsel))
    else
      var c := s.children[i];
      s.(children := s.children[i := c.(status := 0, ready := c.ready - 1)],
         navail := s.navail + 1, collected := Read(s.collected, i),
         phase := if nsel - 1 == 0 then AtSelect else Scanning(i + 1, rset, nsel - 1))
  }

  function Step(s: Server, e: Event): Server
    requires Enabled(s, e)
  {
    match e
    case Select(conn, bits) =>
      var n := Bits(bits, 0);
      s.(phase := if conn then Chosen(bits, n + 1) else Scanning(0, bits, n), reported := Named(s.reported, bits))
    case Accept(connfd) => AcceptStep(s, connfd)
    case Scan => ScanStep(s)
    case Take(k) =>
      var c := s.children[k];
      s.(children := s.children[k := c.(inbox := c.inbox[1..], serving := Some(c.inbox[0]))])
    case Done(k) =>
      var c := s.children[k];
      s.(children := s.children[k := c.(serving := None, ready := c.ready + 1, served := c.served + [c.serving.value])])
  }

  predicate Initial(s: Server) {
    && s.navail == |s.children| && s.phase == AtSelect && !s.quit
    && s.accepted == [] && |s.reported| == |s.children| && s.collected == s.reported
    && forall k :: 0 <= k < |s.children| ==> s.children[k] == Child(0, 0, [], None, 0, [])
  }

  ghost predicate Reaches(s: Server, run: seq<Event>, t: Server)
    decreases |run|
  {
    if run == [] then t == s
    else Enabled(s, run[0]) && Reaches(Step(s, run[0]), run[1..], t)
  }

  // ---------------------------------------------------------------------
  // What every interleaving keeps
  // ---------------------------------------------------------------------

  /** A child is marked busy exactly when one of three things holds: its descriptor is in
      flight, it is being served, or its ready byte has not been read. */
  predicate Marked(c: Child) {
    && (c.status == 0 || c.status == 1)
    && |c.inbox| + (if c.serving.Some? then 1 else 0) + c.ready == c.status
  }

  /** What a child has been given, in order. */
  function Given(c: Child): seq<int> {
    c.served + (if c.serving.Some? then [c.serving.value] else []) + c.inbox
  }

  function Sum(cs: seq<Child>, f: Child -> nat): nat {
    if cs == [] then 0 else f(cs[0]) + Sum(cs[1..], f)
  }

  function Free(c: Child): nat {
    if c.status == 0 then 1 else 0
  }

  function Count(c: Child): nat {
    c.count
  }

  lemma {:induction false} SumUpdate(cs: seq<Child>, f: Child -> nat, k: nat, c: Child)
    requires k < |cs|
    ensures Sum(cs[k := c], f) == Sum(cs, f) - f(cs[k]) + f(c)
  {
    if k == 0 {
      assert cs[0 := c][1..] == cs[1..];
    } else {
      SumUpdate(cs[1..], f, k - 1, c);
      assert cs[k := c][1..] == cs[1..][k - 1 := c];
    }
  }

  lemma {:induction false} SumPositive(cs: seq<Child>)
    ensures Sum(cs, Free) > 0 <==> FirstFree(cs) < |cs|
  {
    if cs != [] && cs[0].status != 0 {
      SumPositive(cs[1..]);
    }
  }

  /** `nsel` counts exactly the bits still to be looked at, and each has its byte. */
  predicate PhaseOk(s: Server) {
    match s.phase
    case AtSelect => true
    case Chosen(r, nsel) => s.navail > 0 && nsel == 1 + Bits(r, 0) && Covered(s.children, r, 0)
    case Scanning(i, r, nsel) => nsel == Bits(r, i) > 0 && Covered(s.children, r, i)
  }

  predicate Covered(cs: seq<Child>, r: seq<bool>, i: nat) {
    |r| == |cs| && forall k :: i <= k < |r| && r[k] ==> cs[k].ready > 0
  }

  /** Child `k` has been named by this select and not been read yet. */
  predicate Waiting(p: Phase, k: nat) {
    match p
    case AtSelect => false
    case Chosen(r, _) => k < |r| && r[k]
    case Scanning(i, r, _) => i <= k < |r| && r[k]
  }

  /** Each child has been named ready as often as its byte was read, but for the ones the
      loop has still to come to. */
  predicate Collected(s: Server) {
    && |s.reported| == |s.collected| == |s.children|
    && forall k :: 0 <= k < |s.children| ==> s.reported[k] == s.collected[k] + if Waiting(s.phase, k) then 1 else 0
  }

  predicate AllMarked(s: Server) {
    forall k :: 0 <= k < |s.children| ==> Marked(s.children[k])
  }

  ghost predicate Accounted(s: Server) {
    && |s.accepted| == Sum(s.children, Count)
    && forall k :: 0 <= k < |s.children| ==>
         Given(s.children[k]) == PoolSpec.Mine(s.accepted, k) && s.children[k].count == |Given(s.children[k])|
  }

  ghost predicate Inv(s: Server) {
    && !s.quit && AllMarked(s) && s.navail == Sum(s.children, Free) && PhaseOk(s)
    && Collected(s) && Accounted(s)
  }

  lemma InitialInv(s: Server)
    requires Initial(s)
    ensures Inv(s)
  {
    InitialSums(s.children);
  }

  lemma {:induction false} InitialSums(cs: seq<Child>)
    requires forall k :: 0 <= k < |cs| ==> cs[k] == Child(0, 0, [], None, 0, [])
    ensures Sum(cs, Free) == |cs| && Sum(cs, Count) == 0
  {
    if cs != [] {
      InitialSums(cs[1..]);
    }
  }

  lemma ScanFindsChild(s: Server)
    requires PhaseOk(s) && s.phase.Scanning?
    ensures s.phase.i < |s.children| == |s.phase.rset|
    ensures !s.quit ==> Enabled(s, Scan)
  {
  }

  /** "no available children" (line 59 of serv05.c) cannot happen. */
  lemma AlwaysAvailable(s: Server, connfd: int)
    requires Inv(s) && Enabled(s, Accept(connfd))
    ensures FirstFree(s.children) < |s.children| && !AcceptStep(s, connfd).quit
  {
    SumPositive(s.children);
  }

  /** A connection goes to the first available child. */
  lemma FirstAvailable(s: Server, connfd: int, i: nat)
    requires Inv(s) && Enabled(s, Accept(connfd))
    requires i < |s.children| && s.children[i].status == 0 && forall k :: 0 <= k < i ==> s.children[k].status != 0
    ensures var t := Step(s, Accept(connfd));
      && t.accepted == s.accepted + [(i, connfd)] && t.navail == s.navail - 1 && !t.quit
      && |t.children| == |s.children| && t.children[i].inbox == s.children[i].inbox + [connfd]
      && t.children[i].status == 1 && t.children[i].count == s.children[i].count + 1
      && forall k :: 0 <= k < |s.children| && k != i ==> t.children[k] == s.children[k]
  {
    hide Sum, Bits, Accounted;
  }

  /** The parent listens for connections exactly when some child is available. */
  lemma ListensExactly(s: Server)
    requires Inv(s) && s.phase.AtSelect?
    ensures (exists bits :: Enabled(s, Select(true, bits))) <==>
      exists k :: 0 <= k < |s.children| && s.children[k].status == 0
  {
    hide Sum, Bits, Accounted;
    SumPositive(s.children);
    if k :| 0 <= k < |s.children| && s.children[k].status == 0 {
      var bits := seq(|s.children|, _ => false);
      assert Enabled(s, Select(true, bits));
    }
    if exists bits :: Enabled(s, Select(true, bits)) {
      assert s.children[FirstFree(s.children)].status == 0;
    }
  }

  lemma StepKeepsMarks(s: Server, e: Event)
    requires Inv(s) && Enabled(s, e)
    ensures AllMarked(Step(s, e)) && !Step(s, e).quit
  {
    hide Accounted, Sum, Bits;
    if e.Accept? {
      AlwaysAvailable(s, e.connfd);
    } else if e.Scan? {
      ScanFindsChild(s);
    }
  }

  lemma StepKeepsAvail(s: Server, e: Event)
    requires Inv(s) && Enabled(s, e)
    ensures Step(s, e).navail == Sum(Step(s, e).children, Free)
  {
    hide Accounted, Sum, Bits;
    var t := Step(s, e);
    match e
    case Accept(connfd) =>
      AlwaysAvailable(s, connfd);
      var k := FirstFree(s.children);
      SumUpdate(s.children, Free, k, t.children[k]);
    case Scan =>
      ScanFindsChild(s);
      var k := s.phase.i;
      SumUpdate(s.children, Free, k, t.children[k]);
    case Take(c) => SumUpdate(s.children, Free, c, t.children[c]);
    case Done(c) => SumUpdate(s.children, Free, c, t.children[c]);
    case _ =>
  }

  lemma StepKeepsPhase(s: Server, e: Event)
    requires Inv(s) && Enabled(s, e)
    ensures PhaseOk(Step(s, e))
  {
    hide Accounted, Sum, Collected;
    if e.Accept? {
      AlwaysAvailable(s, e.connfd);
    } else if e.Scan? {
      ScanFindsChild(s);
    }
  }

  lemma StepKeepsCollected(s: Server, e: Event)
    requires Inv(s) && Enabled(s, e)
    ensures Collected(Step(s, e))
  {
    hide Accounted, Sum, FirstFree, AllMarked;
    var t := Step(s, e);
    forall k | 0 <= k < |s.children|
      ensures |t.reported| == |t.collected| == |t.children| == |s.children|
      ensures t.reported[k] == t.collected[k] + if Waiting(t.phase, k) then 1 else 0
    {
      match e
      case Accept(connfd) =>
        AlwaysAvailable(s, connfd);
        BitsZero(s.phase.rset, 0);
      case Scan =>
        ScanFindsChild(s);
        BitsZero(s.phase.rset, s.phase.i + 1);
      case _ =>
    }
    SameChildren(s, e);
  }

  lemma SameChildren(s: Server, e: Event)
    requires Inv(s) && Enabled(s, e)
    ensures var t := Step(s, e);
      |t.reported| == |t.collected| == |t.children| == |s.children|
  {
    hide Accounted, Sum, Bits;
    if e.Accept? {
      AlwaysAvailable(s, e.connfd);
    }
  }

  predicate Settled(c: Child, mine: seq<int>) {
    Given(c) == mine && c.count == |mine|
  }

  /** What each step does to the account of the child it concerns. */
  lemma StepSettles(s: Server, e: Event, k: nat)
    requires Enabled(s, e) && AllMarked(s) && k < |s.children|
    requires Settled(s.children[k], PoolSpec.Mine(s.accepted, k))
    ensures |Step(s, e).children| == |s.children|
    ensures Settled(Step(s, e).children[k], PoolSpec.Mine(Step(s, e).accepted, k))
  {
    hide Bits, PoolSpec.Mine;
    var c, t := s.children[k], Step(s, e);
    match e
    case Accept(connfd) =>
      PoolSpec.MineSnoc(s.accepted, (FirstFree(s.children), connfd), k);
    case Take(j) =>
      if j == k { assert [c.inbox[0]] + c.inbox[1..] == c.inbox; }
    case Done(j) =>
      if j == k { assert Given(c) == c.served + [c.serving.value] + c.inbox; }
    case _ =>
  }

  lemma StepKeepsAccounts(s: Server, e: Event)
    requires Inv(s) && Enabled(s, e)
    ensures Accounted(Step(s, e))
  {
    hide Bits, PoolSpec.Mine, Sum, PhaseOk, Given;
    var t := Step(s, e);
    forall k | 0 <= k < |s.children|
      ensures |t.children| == |s.children| && Settled(t.children[k], PoolSpec.Mine(t.accepted, k))
    {
      assert Settled(s.children[k], PoolSpec.Mine(s.accepted, k));
      StepSettles(s, e, k);
    }
    StepKeepsTotal(s, e);
  }

  lemma StepKeepsTotal(s: Server, e: Event)
    requires Inv(s) && Enabled(s, e)
    ensures var t := Step(s, e); |t.accepted| == Sum(t.children, Count) && |t.children| == |s.children|
  {
    hide Bits, Sum, AllMarked;
    var t := Step(s, e);
    match e
    case Accept(connfd) =>
      AlwaysAvailable(s, connfd);
      var k := FirstFree(s.children);
      SumUpdate(s.children, Count, k, t.children[k]);
    case Scan =>
      ScanFindsChild(s);
      SumUpdate(s.children, Count, s.phase.i, t.children[s.phase.i]);
    case Take(c) => SumUpdate(s.children, Count, c, t.children[c]);
    case Done(c) => SumUpdate(s.children, Count, c, t.children[c]);
    case _ =>
  }

  lemma StepKeepsInv(s: Server, e: Event)
    requires Inv(s) && Enabled(s, e)
    ensures Inv(Step(s, e))
  {
    StepKeepsMarks(s, e);
    StepKeepsAvail(s, e);
    StepKeepsPhase(s, e);
    StepKeepsCollected(s, e);
    StepKeepsAccounts(s, e);
  }

  lemma {:induction false} RunKeepsInv(s: Server, run: seq<Event>, t: Server)
    requires Inv(s) && Reaches(s, run, t)
    ensures Inv(t)
    decreases |run|
  {
    hide Inv, Step, Enabled;
    if run != [] {
      StepKeepsInv(s, run[0]);
      RunKeepsInv(Step(s, run[0]), run[1..], t);
    }
  }

  /** In every run: the parent never exits, `navail` counts the children marked
      available, a child is marked busy iff exactly one of its three states of business
      holds, each connection reaches one child, in the order given to that child, and the
      counts add up to the connections accepted. */
  lemma Dispatched(s: Server, run: seq<Event>, t: Server)
    requires Initial(s) && Reaches(s, run, t)
    ensures !t.quit && t.navail == Sum(t.children, Free) && |t.accepted| == Sum(t.children, Count)
    ensures forall k :: 0 <= k < |t.children| ==>
      var c := t.children[k];
      && (c.status == 0 || c.status == 1)
      && (c.status == 1 <==> (|c.inbox|, c.serving.Some?, c.ready) in {(1, false, 0), (0, true, 0), (0, false, 1)})
      && c.served <= PoolSpec.Mine(t.accepted, k)
      && |PoolSpec.Mine(t.accepted, k)| == |c.served| + (if c.status == 1 && c.ready == 0 then 1 else 0)
  {
    hide Sum, PoolSpec.Mine, Step, Enabled;
    InitialInv(s);
    RunKeepsInv(s, run, t);
    forall k | 0 <= k < |t.children|
      ensures Marked(t.children[k]) && Given(t.children[k]) == PoolSpec.Mine(t.accepted, k)
    {
    }
  }

  /** The early exits skip nobody: whenever the parent is back at select, every child has
      had its byte read as often as select has named it ready... */
  lemma NobodySkipped(s: Server, run: seq<Event>, t: Server)
    requires Initial(s) && Reaches(s, run, t) && t.phase.AtSelect?
    ensures |t.reported| == |t.collected| == |t.children|
    ensures forall k :: 0 <= k < |t.children| ==> t.reported[k] == t.collected[k]
  {
    hide Step, Enabled, Accounted, Sum;
    InitialInv(s);
    RunKeepsInv(s, run, t);
  }

  lemma {:induction false} BitsZero(r: seq<bool>, i: nat)
    ensures Bits(r, i) == 0 <==> forall k :: i <= k < |r| ==> !r[k]
    decreases |r| - i
  {
    if i < |r| {
      BitsZero(r, i + 1);
    }
  }

  /** ...because the loop breaks off exactly after the last child named. */
  lemma BreaksAfterLast(s: Server)
    requires Inv(s) && s.phase.Scanning?
    ensures ScanStep(s).phase.AtSelect? <==>
      s.phase.rset[s.phase.i] && forall k :: s.phase.i < k < |s.children| ==> !s.phase.rset[k]
  {
    hide Accounted, Sum;
    ScanFindsChild(s);
    BitsZero(s.phase.rset, s.phase.i + 1);
    BitsZero(s.phase.rset, s.phase.i);
  }

  // ---------------------------------------------------------------------
  // No interleaving gets stuck with work left
  // ---------------------------------------------------------------------

  /** Everything but accepting a connection, and select announcing one. */
  predicate IsWork(e: Event) {
    !e.Accept? && !(e.Select? && e.conn)
  }

  function Effort(c: Child): nat {
    3 * |c.inbox| + (if c.serving.Some? then 2 else 0) + c.ready
  }

  /** How far the parent is from its next read or select. */
  function Walk(s: Server): nat {
    match s.phase
    case AtSelect => |s.children| + 2
    case Chosen(_, _) => |s.children| + 1
    case Scanning(i, _, _) => if i <= |s.children| then |s.children| - i else 0
  }

  /** A bound on the steps that are left without another connection. */
  function WorkLeft(s: Server): nat {
    Sum(s.children, Effort) * (|s.children| + 3) + Walk(s)
  }

  lemma EffortMoves(s: Server, e: Event)
    requires Inv(s) && Enabled(s, e) && IsWork(e)
    ensures var t := Step(s, e);
      && |t.children| == |s.children|
      && (Sum(t.children, Effort) + 1 == Sum(s.children, Effort)
          || (Sum(t.children, Effort) == Sum(s.children, Effort) && Walk(t) < Walk(s)))
  {
    hide Bits, Sum, Accounted;
    var t := Step(s, e);
    match e
    case Scan =>
      ScanFindsChild(s);
      SumUpdate(s.children, Effort, s.phase.i, t.children[s.phase.i]);
    case Take(c) => SumUpdate(s.children, Effort, c, t.children[c]);
    case Done(c) => SumUpdate(s.children, Effort, c, t.children[c]);
    case _ =>
  }

  lemma WorkGetsDone(s: Server, e: Event)
    requires Inv(s) && Enabled(s, e) && IsWork(e)
    ensures WorkLeft(Step(s, e)) < WorkLeft(s)
  {
    hide Sum, Inv, Step, Enabled;
    var t := Step(s, e);
    EffortMoves(s, e);
    var m, n, k := Sum(s.children, Effort), Sum(t.children, Effort), |s.children| + 3;
    if n + 1 == m {
      assert m * k == n * k + k;
    }
  }

  /** Without another connection every schedule ends... */
  lemma {:induction false} WorkIsBounded(s: Server, run: seq<Event>, t: Server)
    requires Inv(s) && Reaches(s, run, t) && forall e :: e in run ==> IsWork(e)
    ensures |run| + WorkLeft(t) <= WorkLeft(s)
    decreases |run|
  {
    hide Inv, Step, Enabled, WorkLeft;
    if run != [] {
      assert run[0] in run;
      WorkGetsDone(s, run[0]);
      StepKeepsInv(s, run[0]);
      WorkIsBounded(Step(s, run[0]), run[1..], t);
    }
  }

  /** ...and where it ends, every child is available again and every connection accepted
      has been served; or the parent is about to accept. */
  lemma StuckMeansDone(s: Server)
    requires Inv(s) && forall e :: Enabled(s, e) ==> !IsWork(e)
    ensures s.phase.Chosen? || s.phase.AtSelect?
    ensures s.phase.AtSelect? ==>
      forall k :: 0 <= k < |s.children| ==>
        s.children[k].status == 0 && s.children[k].served == PoolSpec.Mine(s.accepted, k)
  {
    hide Bits, Sum, PoolSpec.Mine;
    assert IsWork(Scan);
    if s.phase.Scanning? {
      ScanFindsChild(s);
    } else if s.phase.AtSelect? {
      var bits := seq(|s.children|, k requires 0 <= k < |s.children| => s.children[k].ready > 0);
      BitsZero(bits, 0);
      assert IsWork(Select(false, bits));
      forall k | 0 <= k < |s.children|
        ensures s.children[k].status == 0 && s.children[k].served == PoolSpec.Mine(s.accepted, k)
      {
        assert IsWork(Take(k)) && IsWork(Done(k));
        assert !bits[k] && !Enabled(s, Take(k)) && !Enabled(s, Done(k));
        assert Marked(s.children[k]) && Given(s.children[k]) == PoolSpec.Mine(s.accepted, k);
        assert Given(s.children[k]) == s.children[k].served;
      }
    }
  }
}

/** The producer and the consumer of threads/example03.c with their buffer, mutex and two
    condition variables: a step system over every schedule. */
module ProdConsSpec {

  const NLOOP: nat := 50
  const BUFFSIZE: nat := 10

  /** A thread between its critical sections: about to take the mutex, for the first time
      or after a wakeup, or waiting unsignalled. */
  datatype Thread = Ready | Waiting

  /** `i` and `j` are the two loop counters; `produced` and `consumed` record the values. */
  datatype Pair = Pair(buf: seq<int>, nitems: int, nextget: int, nextput: int, producer: Thread, consumer: Thread,
                       i: nat, j: nat, produced: seq<int>, consumed: seq<int>)

  datatype Event =
    | Produce       // the producer holds the mutex: it waits, or stores and signals
    | Consume       // the consumer holds it: it waits, or fetches and signals
    | WakeProducer  // cond_wait returns without a signal
    | WakeConsumer

  predicate Shaped(s: Pair) {
    && |s.buf| == BUFFSIZE && 0 <= s.nitems <= BUFFSIZE && 0 <= s.nextget < BUFFSIZE && 0 <= s.nextput < BUFFSIZE
    && s.nextput == (s.nextget + s.nitems) % BUFFSIZE
  }

  predicate Enabled(s: Pair, e: Event) {
    match e
    case Produce => s.producer == Ready && s.i < NLOOP
    case Consume => s.consumer == Ready && s.j < NLOOP
    case WakeProducer => s.producer == Waiting
    case WakeConsumer => s.consumer == Waiting
  }

  function Next(i: int): int {
    if i + 1 >= BUFFSIZE then 0 else i + 1
  }

  function Step(s: Pair, e: Event): (t: Pair)
    requires Shaped(s) && Enabled(s, e)
    ensures Shaped(t)
  {
    match e
    case Produce =>
      if s.nitems >= BUFFSIZE then s.(producer := Waiting)
      else s.(buf := s.buf[s.nextput := s.i], nextput := Next(s.nextput), nitems := s.nitems + 1,
              consumer := Ready, i := s.i + 1, produced := s.produced + [s.i])
    case Consume =>
      if s.nitems <= 0 then s.(consumer := Waiting)
      else s.(nextget := Next(s.nextget), nitems := s.nitems - 1, producer := Ready, j := s.j + 1,
              consumed := s.consumed + [s.buf[s.nextget]])
    case WakeProducer => s.(producer := Ready)
    case WakeConsumer => s.(consumer := Ready)
  }

  predicate Initial(s: Pair) {
    && |s.buf| == BUFFSIZE && s.nitems == s.nextget == s.nextput == s.i == s.j == 0
    && s.producer == s.consumer == Ready && s.produced == s.consumed == []
  }

  ghost predicate Reaches(s: Pair, run: seq<Event>, t: Pair)
    requires Shaped(s)
    decreases |run|
  {
    if run == [] then t == s
    else Enabled(s, run[0]) && Reaches(Step(s, run[0]), run[1..], t)
  }

  // ---------------------------------------------------------------------
  // What every schedule keeps
  // ---------------------------------------------------------------------

  /** What is in the buffer, oldest first. */
  function Items(s: Pair): (q: seq<int>)
    requires Shaped(s)
    ensures |q| == s.nitems
  {
    seq(s.nitems, k requires 0 <= k < s.nitems => s.buf[(s.nextget + k) % BUFFSIZE])
  }

  function UpTo(n: nat): (q: seq<int>)
    ensures |q| == n
  {
    seq(n, k => k)
  }

  /** Nothing is lost, repeated or reordered. */
  predicate InOrder(s: Pair)
    requires Shaped(s)
  {
    s.produced == UpTo(s.i) && s.produced == s.consumed + Items(s) && |s.consumed| == s.j
  }

  /** A thread waits unsignalled only while its condition still fails. */
  predicate WaitsRightly(s: Pair) {
    && (s.producer == Waiting ==> s.nitems == BUFFSIZE && s.i < NLOOP)
    && (s.consumer == Waiting ==> s.nitems == 0 && s.j < NLOOP)
  }

  predicate Inv(s: Pair) {
    Shaped(s) && InOrder(s) && WaitsRightly(s) && s.i <= NLOOP && s.j <= NLOOP
  }

  lemma InitialInv(s: Pair)
    requires Initial(s)
    ensures Inv(s)
  {
  }

  lemma ItemsProduce(s: Pair)
    requires Shaped(s) && Enabled(s, Produce) && s.nitems < BUFFSIZE
    ensures Items(Step(s, Produce)) == Items(s) + [s.i]
  {
    var t := Step(s, Produce);
    forall k | 0 <= k <= s.nitems ensures Items(t)[k] == (Items(s) + [s.i])[k] {
      assert k < s.nitems ==> (s.nextget + k) % BUFFSIZE != s.nextput;
    }
  }

  lemma ItemsConsume(s: Pair)
    requires Shaped(s) && Enabled(s, Consume) && s.nitems > 0
    ensures Items(s) == [s.buf[s.nextget]] + Items(Step(s, Consume))
  {
    var t := Step(s, Consume);
    forall k | 0 < k < s.nitems ensures Items(s)[k] == Items(t)[k - 1] {
      assert (s.nextget + k) % BUFFSIZE == (t.nextget + (k - 1)) % BUFFSIZE;
    }
  }

  lemma SameItems(s: Pair, t: Pair)
    requires Shaped(s) && Shaped(t) && s.buf == t.buf && s.nextget == t.nextget && s.nitems == t.nitems
    ensures Items(s) == Items(t)
  {
  }

  lemma StepKeepsInv(s: Pair, e: Event)
    requires Inv(s) && Enabled(s, e)
    ensures Inv(Step(s, e))
  {
    hide Items;
    var t := Step(s, e);
    if e == Produce && s.nitems < BUFFSIZE {
      ItemsProduce(s);
      assert s.consumed + (Items(s) + [s.i]) == s.produced + [s.i] == UpTo(s.i + 1);
    } else if e == Consume && s.nitems > 0 {
      ItemsConsume(s);
      assert s.consumed + ([s.buf[s.nextget]] + Items(t)) == t.consumed + Items(t);
    } else {
      SameItems(s, t);
    }
  }

  lemma {:induction false} RunKeepsInv(s: Pair, run: seq<Event>, t: Pair)
    requires Inv(s) && Reaches(s, run, t)
    ensures Inv(t)
    decreases |run|
  {
    hide InOrder, WaitsRightly;
    if run != [] {
      StepKeepsInv(s, run[0]);
      RunKeepsInv(Step(s, run[0]), run[1..], t);
    }
  }

  /** In every run the values come out in the order 0, 1, 2, ..., no more than BUFFSIZE
      behind, and the two threads never both wait unsignalled. */
  lemma Handed(s: Pair, run: seq<Event>, t: Pair)
    requires Initial(s) && Reaches(s, run, t)
    ensures Shaped(t) && t.consumed == UpTo(t.j) && t.consumed <= t.produced == UpTo(t.i)
    ensures t.i - BUFFSIZE <= t.j <= t.i
    ensures !(t.producer == Waiting && t.consumer == Waiting)
  {
    InitialInv(s);
    RunKeepsInv(s, run, t);
    assert t.consumed == t.produced[..t.j];
  }

  /** The producer waits exactly when ten values are still to be consumed, the consumer
      exactly when none is; otherwise the one hands over its next value and the other takes
      the oldest. */
  lemma WaitsExactly(s: Pair)
    requires Inv(s)
    ensures Enabled(s, Produce) ==>
      var t := Step(s, Produce);
      if |s.produced| == |s.consumed| + 10 then t == s.(producer := Waiting)
      else t.produced == s.produced + [|s.produced|] && t.consumed == s.consumed && t.consumer == Ready
    ensures Enabled(s, Consume) ==>
      var t := Step(s, Consume);
      if |s.produced| == |s.consumed| then t == s.(consumer := Waiting)
      else
        t.consumed == s.consumed + [s.produced[|s.consumed|]] && t.produced == s.produced && t.producer == Ready
  {
    assert |s.produced| == |s.consumed| + s.nitems;
    if s.nitems > 0 {
      assert s.produced[|s.consumed|] == Items(s)[0];
    }
  }

  // ---------------------------------------------------------------------
  // Both loops finish
  // ---------------------------------------------------------------------

  predicate IsWork(e: Event) {
    e == Produce || e == Consume
  }

  function WorkLeft(s: Pair): int {
    3 * (NLOOP - s.i) + 3 * (NLOOP - s.j)
    + (if s.producer == Ready then 1 else 0) + (if s.consumer == Ready then 1 else 0)
  }

  /** A schedule without spurious wakeups takes at most 302 steps... */
  lemma {:induction false} WorkIsBounded(s: Pair, run: seq<Event>, t: Pair)
    requires Inv(s) && Reaches(s, run, t) && forall e :: e in run ==> IsWork(e)
    ensures |run| + WorkLeft(t) <= WorkLeft(s) <= 302 && WorkLeft(t) >= 0
    decreases |run|
  {
    hide InOrder;
    if run != [] {
      assert run[0] in run;
      StepKeepsInv(s, run[0]);
      WorkIsBounded(Step(s, run[0]), run[1..], t);
    }
  }

  /** ...and where neither thread can run, both loops are over and every value has been
      consumed. */
  lemma StuckMeansDone(s: Pair)
    requires Inv(s) && !Enabled(s, Produce) && !Enabled(s, Consume)
    ensures s.i == s.j == NLOOP && s.consumed == UpTo(NLOOP) && s.nitems == 0
  {
    assert s.i == s.j + s.nitems;
    assert s.consumed + Items(s) == s.consumed;
  }
}

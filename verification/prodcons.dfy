/** The buffer of threads/example03.c and the two threads' critical sections, each proved
    to take the step that `ProdConsSpec` describes. */
module ProdCons {
  import opened ProdConsSpec

  class Buf {
    const buf: array<int>
    var nitems: int
    var nextget: int
    var nextput: int
    var producer: Thread
    var consumer: Thread
    var i: nat
    var j: nat
    ghost var produced: seq<int>
    ghost var consumed: seq<int>

    ghost function State(): Pair
      reads this, buf
    {
      Pair(buf[..], nitems, nextget, nextput, producer, consumer, i, j, produced, consumed)
    }

    constructor ()
      ensures Initial(State()) && fresh(buf)
    {
      buf := new int[BUFFSIZE](_ => 0);
      nitems, nextget, nextput, i, j := 0, 0, 0, 0, 0;
      producer, consumer := Ready, Ready;
      produced, consumed := [], [];
    }

    /** Lines 65-79 from one acquisition of the mutex to its release, and the loop around. */
    method Produce()
      requires Shaped(State()) && Enabled(State(), Event.Produce)
      modifies this, buf
      ensures State() == Step(old(State()), Event.Produce)
    {
      if nitems >= BUFFSIZE {
        producer := Waiting;
        return;
      }
      buf[nextput] := i;
      produced := produced + [i];
      nextput := nextput + 1;
      if nextput >= BUFFSIZE {
        nextput := 0;
      }
      nitems := nitems + 1;
      if consumer == Waiting {   // pthread_cond_signal
        consumer := Ready;
      }
      i := i + 1;
    }

    /** Lines 87-103, likewise. */
    method Consume() returns (val: int)
      requires Shaped(State()) && Enabled(State(), Event.Consume)
      modifies this
      ensures State() == Step(old(State()), Event.Consume)
      ensures j > old(j) ==> consumed == old(consumed) + [val]
    {
      val := 0;
      if nitems <= 0 {
        consumer := Waiting;
        return;
      }
      val := buf[nextget];
      consumed := consumed + [val];
      nextget := nextget + 1;
      if nextget >= BUFFSIZE {
        nextget := 0;
      }
      nitems := nitems - 1;
      if producer == Waiting {
        producer := Ready;
      }
      j := j + 1;
    }

    method Happen(e: Event) returns (enabled: bool)
      requires Shaped(State())
      modifies this, buf
      ensures enabled == Enabled(old(State()), e)
      ensures State() == if enabled then Step(old(State()), e) else old(State())
    {
      match e
      case Produce =>
        enabled := producer == Ready && i < NLOOP;
        if enabled { Produce(); }
      case Consume =>
        enabled := consumer == Ready && j < NLOOP;
        if enabled { var _ := Consume(); }
      case WakeProducer =>
        enabled := producer == Waiting;
        if enabled { producer := Ready; }
      case WakeConsumer =>
        enabled := consumer == Waiting;
        if enabled { consumer := Ready; }
    }
  }

  /** Both threads to their ends, whatever `preferProducer` picks when both could run. */
  method RunBoth(preferProducer: nat -> bool) returns (b: Buf, steps: nat)
    ensures b.consumed == UpTo(NLOOP) && b.i == b.j == NLOOP && steps <= 302
  {
    b := new Buf();
    steps := 0;
    InitialInv(b.State());
    while (b.producer == Ready && b.i < NLOOP) || (b.consumer == Ready && b.j < NLOOP)
      invariant Inv(b.State()) && fresh(b) && fresh(b.buf)
      invariant steps + WorkLeft(b.State()) <= 302
      decreases WorkLeft(b.State())
    {
      ghost var s := b.State();
      var producer := b.producer == Ready && b.i < NLOOP;
      var consumer := b.consumer == Ready && b.j < NLOOP;
      if producer && (!consumer || preferProducer(steps)) {
        StepKeepsInv(s, Event.Produce);
        b.Produce();
      } else {
        StepKeepsInv(s, Event.Consume);
        var _ := b.Consume();
      }
      steps := steps + 1;
    }
    StuckMeansDone(b.State());
  }
}

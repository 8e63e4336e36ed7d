/** What the gains 1/8 and 1/4 of `rtt_stop` (lib/rtt.c) make of any sequence of samples:
    exponentially weighted means. */
module RttMeans {
  import opened Rtt

  /** keep^n */
  function Power(keep: real, n: nat): real {
    if n == 0 then 1.0 else keep * Power(keep, n - 1)
  }

  /** What a value contributes that has `k` later ones. */
  function Share(keep: real, k: nat, z: real): real {
    (1.0 - keep) * Power(keep, k) * z
  }

  /** Each of `x[..n]` weighs 1 - keep, and `keep` times less for every later one. */
  function Weighted(x: seq<real>, n: nat, last: nat, keep: real): real
    requires n <= |x| && n <= last
  {
    if n == 0 then 0.0 else Weighted(x, n - 1, last, keep) + Share(keep, last - n, x[n - 1])
  }

  /** A start value and all of `x`. */
  function Mean(start: real, x: seq<real>, keep: real): real {
    Power(keep, |x|) * start + Weighted(x, |x|, |x|, keep)
  }

  lemma {:induction false} WeightedLater(x: seq<real>, y: real, n: nat, last: nat, keep: real)
    requires n <= |x| && n <= last
    ensures Weighted(x + [y], n, last + 1, keep) == keep * Weighted(x, n, last, keep)
  {
    hide Share;
    if n > 0 {
      WeightedLater(x, y, n - 1, last, keep);
      ShareLater(keep, last - n, x[n - 1]);
      Distribute(keep, Weighted(x, n - 1, last, keep), Share(keep, last - n, x[n - 1]));
    }
  }

  lemma ShareLater(keep: real, k: nat, z: real)
    ensures Share(keep, k + 1, z) == keep * Share(keep, k, z)
  {
    var a, p := 1.0 - keep, Power(keep, k);
    Associate(a, keep * p, z);
    Associate(keep, p, z);
    Exchange(a, keep, p * z);
    Associate(a, p, z);
  }

  lemma Associate(a: real, b: real, c: real)
    ensures (a * b) * c == a * (b * c)
  {
  }

  lemma Exchange(a: real, b: real, c: real)
    ensures a * (b * c) == b * (a * c)
  {
  }

  lemma Distribute(a: real, b: real, c: real)
    ensures a * (b + c) == a * b + a * c
  {
  }

  /** One more value: the mean moves towards it by the gain. */
  lemma MeanSnoc(start: real, x: seq<real>, y: real, keep: real)
    ensures Mean(start, x + [y], keep) == keep * Mean(start, x, keep) + (1.0 - keep) * y
  {
    var n := |x|;
    WeightedLater(x, y, n, n, keep);
    ShareOfLast(keep, y);
    Associate(keep, Power(keep, n), start);
    Distribute(keep, Power(keep, n) * start, Weighted(x, n, n, keep));
    assert (x + [y])[n] == y;
  }

  lemma ShareOfLast(keep: real, y: real)
    ensures Share(keep, 0, y) == (1.0 - keep) * y
  {
    assert Power(keep, 0) == 1.0;
  }

  function AllSeconds(samples: seq<nat>): (x: seq<real>)
    ensures |x| == |samples|
  {
    seq(|samples|, k requires 0 <= k < |samples| => samples[k] as real / 1000.0)
  }

  /** How far each sample lay from the smoothed time before it. */
  function Errors(e: Estimate, samples: seq<nat>): (x: seq<real>)
    ensures |x| == |samples|
  {
    seq(|samples|, k requires 0 <= k < |samples| =>
      var d := samples[k] as real / 1000.0 - StopAll(e, samples[..k]).srtt;
      if d < 0.0 then -d else d)
  }

  /** For every sequence of samples the smoothed time is the mean of the samples with gain
      1/8, the deviation the mean of their errors with gain 1/4, and the timeout the one
      plus four times the other, from 2 to 60 seconds. */
  lemma {:induction false} StopAllMeans(e: Estimate, samples: seq<nat>)
    ensures var r := StopAll(e, samples);
      && r.srtt == Mean(e.srtt, AllSeconds(samples), 0.875)
      && r.rttvar == Mean(e.rttvar, Errors(e, samples), 0.75)
      && (samples != [] ==>
        var v := r.srtt + 4.0 * r.rttvar;
        && r.rtt == samples[|samples| - 1] as real / 1000.0 && r.base == e.base && r.nrexmt == e.nrexmt
        && r.rto == if v < 2.0 then 2.0 else if v > 60.0 then 60.0 else v)
    decreases |samples|
  {
    hide Mean;
    if samples == [] {
      MeanOfNone(e.srtt, AllSeconds([]), 0.875);
      MeanOfNone(e.rttvar, Errors(e, []), 0.75);
    } else {
      var n := |samples| - 1;
      var before, ms := samples[..n], samples[n];
      StopAllMeans(e, before);
      var s, d := AllSeconds(samples), Errors(e, samples);
      assert s == AllSeconds(before) + [s[n]];
      assert d == Errors(e, before) + [d[n]] by {
        forall k | 0 <= k < n ensures d[k] == Errors(e, before)[k] {
          assert before[..k] == samples[..k];
        }
      }
      MeanSnoc(e.srtt, AllSeconds(before), s[n], 0.875);
      MeanSnoc(e.rttvar, Errors(e, before), d[n], 0.75);
    }
  }

  lemma MeanOfNone(start: real, x: seq<real>, keep: real)
    requires x == []
    ensures Mean(start, x, keep) == start
  {
  }
}

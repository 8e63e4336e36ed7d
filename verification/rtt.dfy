/** Round-trip-time estimation of lib/rtt.c and lib/unprtt.h, with `float` and `double`
    read as real numbers. */
module Rtt {

  const RTT_RXTMIN: real := 2.0
  const RTT_RXTMAX: real := 60.0
  const RTT_MAXNREXMT: nat := 3
  const UINT32: int := 0x1_0000_0000

  /** The fields of `struct rtt_info`. */
  datatype Estimate = Estimate(rtt: real, srtt: real, rttvar: real, rto: real, nrexmt: nat, base: int)

  function Clamp(x: real): real {
    if x < RTT_RXTMIN then RTT_RXTMIN else if x > RTT_RXTMAX then RTT_RXTMAX else x
  }

  function Rto(srtt: real, rttvar: real): real {
    Clamp(srtt + 4.0 * rttvar)
  }

  function Abs(x: real): real {
    if x < 0.0 then -x else x
  }

  /** After `rtt_init`, called at `now` microseconds since the epoch. */
  function Init(e: Estimate, now: nat): Estimate {
    Estimate(0.0, 0.0, 0.75, Rto(0.0, 0.75), e.nrexmt, now / 1_000_000 % UINT32)
  }

  /** `rtt_ts`: milliseconds since the second in `base`, as a 32-bit number. */
  function Stamp(base: int, now: nat): (ts: nat)
    ensures ts < UINT32
  {
    ((now / 1_000_000 - base) * 1000 + now % 1_000_000 / 1000) % UINT32
  }

  /** The seconds given to `alarm`. */
  function Start(e: Estimate): int {
    (e.rto + 0.5).Floor
  }

  /** After `rtt_stop` with a sample of `ms` milliseconds. */
  function Stop(e: Estimate, ms: nat): Estimate {
    var rtt := ms as real / 1000.0;
    var delta := rtt - e.srtt;
    var srtt := e.srtt + delta / 8.0;
    var rttvar := e.rttvar + (Abs(delta) - e.rttvar) / 4.0;
    Estimate(rtt, srtt, rttvar, Rto(srtt, rttvar), e.nrexmt, e.base)
  }

  function TimedOut(e: Estimate): Estimate {
    e.(rto := e.rto * 2.0, nrexmt := e.nrexmt + 1)
  }

  /** `struct rtt_info` and the functions that work on it in place. */
  class RttInfo {
    var rtt_rtt: real
    var rtt_srtt: real
    var rtt_rttvar: real
    var rtt_rto: real
    var rtt_nrexmt: nat
    var rtt_base: int

    function Value(): Estimate
      reads this
    {
      Estimate(rtt_rtt, rtt_srtt, rtt_rttvar, rtt_rto, rtt_nrexmt, rtt_base)
    }

    constructor ()
      ensures Value() == Estimate(0.0, 0.0, 0.0, 0.0, 0, 0)
    {
      rtt_rtt, rtt_srtt, rtt_rttvar, rtt_rto := 0.0, 0.0, 0.0, 0.0;
      rtt_nrexmt, rtt_base := 0, 0;
    }

    static method MinMax(rto: real) returns (r: real)
      ensures r == Clamp(rto)
    {
      r := rto;
      if r < RTT_RXTMIN {
        r := RTT_RXTMIN;
      } else if r > RTT_RXTMAX {
        r := RTT_RXTMAX;
      }
    }

    method RttInit(now: nat)
      modifies this
      ensures Value() == Init(old(Value()), now)
    {
      rtt_base := now / 1_000_000 % UINT32;
      rtt_rtt := 0.0;
      rtt_srtt := 0.0;
      rtt_rttvar := 0.75;
      rtt_rto := MinMax(rtt_srtt + 4.0 * rtt_rttvar);
    }

    method RttTs(now: nat) returns (ts: nat)
      ensures ts == Stamp(rtt_base, now)
    {
      ts := ((now / 1_000_000 - rtt_base) * 1000 + now % 1_000_000 / 1000) % UINT32;
    }

    method RttNewpack()
      modifies this
      ensures Value() == old(Value()).(nrexmt := 0)
    {
      rtt_nrexmt := 0;
    }

    method RttStart() returns (seconds: int)
      ensures seconds == Start(Value())
    {
      seconds := (rtt_rto + 0.5).Floor;
    }

    method RttStop(ms: nat)
      modifies this
      ensures Value() == Stop(old(Value()), ms)
    {
      rtt_rtt := ms as real / 1000.0;
      var delta := rtt_rtt - rtt_srtt;
      rtt_srtt := rtt_srtt + delta / 8.0;
      if delta < 0.0 {
        delta := -delta;
      }
      rtt_rttvar := rtt_rttvar + (delta - rtt_rttvar) / 4.0;
      rtt_rto := MinMax(rtt_srtt + 4.0 * rtt_rttvar);
    }

    /** True when it is time to give up (the source's -1). */
    method RttTimeout() returns (giveUp: bool)
      modifies this
      ensures Value() == TimedOut(old(Value())) && giveUp == (rtt_nrexmt > RTT_MAXNREXMT)
    {
      rtt_rto := rtt_rto * 2.0;
      rtt_nrexmt := rtt_nrexmt + 1;
      giveUp := rtt_nrexmt > RTT_MAXNREXMT;
    }
  }

  // ---------------------------------------------------------------------
  // Timestamps
  // ---------------------------------------------------------------------

  /** The 32-bit difference of two stamps with the same base is the true age in
      milliseconds, through any wrap-around, for ages below 2^32 milliseconds. */
  lemma StampDifference(base: int, sent: nat, now: nat)
    requires sent <= now && now / 1000 - sent / 1000 < UINT32
    ensures (Stamp(base, now) - Stamp(base, sent)) % UINT32 == now / 1000 - sent / 1000
  {
    Milliseconds(now);
    Milliseconds(sent);
    var x, y := now / 1000 - base * 1000, sent / 1000 - base * 1000;
    ModDifference(x, y);
  }

  /** After `rtt_init` in some second the stamps count the milliseconds since the beginning of
      that second. */
  lemma StampAfterInit(e: Estimate, at: nat, now: nat)
    requires at <= now && now / 1000 - at / 1_000_000 * 1000 < UINT32
    ensures Stamp(Init(e, at).base, now) == now / 1000 - at / 1_000_000 * 1000
  {
    Milliseconds(now);
    var q, b := at / 1_000_000 / UINT32, at / 1_000_000 % UINT32;
    var age := now / 1000 - at / 1_000_000 * 1000;
    assert at / 1_000_000 == q * UINT32 + b;
    assert now / 1000 - b * 1000 == age + (q * 1000) * UINT32;
    Wraps(age, q * 1000);
  }

  lemma {:induction false} Wraps(x: int, q: nat)
    requires 0 <= x < UINT32
    ensures (x + q * UINT32) % UINT32 == x
  {
    if q > 0 {
      Wraps(x, q - 1);
      assert x + q * UINT32 == (x + (q - 1) * UINT32) + UINT32;
    }
  }

  lemma Milliseconds(t: nat)
    ensures t / 1_000_000 * 1000 + t % 1_000_000 / 1000 == t / 1000
  {
  }

  lemma ModDifference(x: int, y: int)
    requires 0 <= x - y < UINT32
    ensures (x % UINT32 - y % UINT32) % UINT32 == x - y
  {
    var p, q := x / UINT32, y / UINT32;
    assert x == p * UINT32 + x % UINT32 && y == q * UINT32 + y % UINT32;
    assert p == q || p == q + 1;
  }

  // ---------------------------------------------------------------------
  // The estimator
  // ---------------------------------------------------------------------

  /** What `rtt_init` and every `rtt_stop` leave behind. */
  predicate Sound(e: Estimate) {
    e.rttvar >= 0.0 && e.srtt >= 0.0 && RTT_RXTMIN <= e.rto <= RTT_RXTMAX
  }

  function StopAll(e: Estimate, samples: seq<nat>): Estimate {
    if samples == [] then e else Stop(StopAll(e, samples[..|samples| - 1]), samples[|samples| - 1])
  }

  /** For every sequence of samples the deviation and the smoothed time stay nonnegative,
      the timeout stays between 2 and 60 seconds, and the smoothed time never exceeds the
      largest of the samples and its own start. */
  lemma {:induction false} StopAllSound(e: Estimate, samples: seq<nat>, most: nat)
    requires Sound(e) && e.srtt <= most as real / 1000.0
    requires forall k :: 0 <= k < |samples| ==> samples[k] <= most
    ensures Sound(StopAll(e, samples)) && StopAll(e, samples).srtt <= most as real / 1000.0
  {
    if samples != [] {
      var n := |samples| - 1;
      StopAllSound(e, samples[..n], most);
      StopSound(StopAll(e, samples[..n]), samples[n], most);
    }
  }

  lemma StopSound(e: Estimate, ms: nat, most: nat)
    requires Sound(e) && e.srtt <= most as real / 1000.0 && ms <= most
    ensures Sound(Stop(e, ms)) && Stop(e, ms).srtt <= most as real / 1000.0
  {
    var m, x := ms as real / 1000.0, most as real / 1000.0;
    assert 0.0 <= m <= x;
  }

  lemma InitSound(e: Estimate, now: nat)
    ensures Sound(Init(e, now)) && Init(e, now).rto == 3.0 && Init(e, now).srtt == 0.0
  {
  }

  /** x * (7/8)^n */
  function Decayed(x: real, n: nat): real {
    if n == 0 then x else Decayed(x, n - 1) * 7.0 / 8.0
  }

  function Repeat(ms: nat, n: nat): (s: seq<nat>)
    ensures |s| == n && forall k :: 0 <= k < n ==> s[k] == ms
  {
    seq(n, _ => ms)
  }

  lemma RepeatSnoc(e: Estimate, ms: nat, n: nat)
    requires n > 0
    ensures StopAll(e, Repeat(ms, n)) == Stop(StopAll(e, Repeat(ms, n - 1)), ms)
  {
    assert Repeat(ms, n)[..n - 1] == Repeat(ms, n - 1);
  }

  function Seconds(ms: nat): real {
    ms as real / 1000.0
  }

  lemma {:induction false} DecayedAbs(x: real, n: nat)
    ensures Abs(Decayed(x, n)) == Decayed(Abs(x), n)
  {
    if n > 0 {
      DecayedAbs(x, n - 1);
    }
  }

  lemma {:induction false} DecayedOrder(x: real, y: real, n: nat)
    requires 2.0 * x <= y
    ensures 2.0 * Decayed(x, n) <= Decayed(y, n)
  {
    if n > 0 {
      DecayedOrder(x, y, n - 1);
    }
  }

  /** With constant samples the error of the smoothed time shrinks by exactly 7/8 per
      sample, and the deviation is bounded by a constant times (7/8)^n. */
  lemma {:induction false} ConstantSamples(e: Estimate, ms: nat, n: nat, c: real)
    requires 0.0 <= e.rttvar <= c && 2.0 * Abs(Seconds(ms) - e.srtt) <= c
    ensures var r := StopAll(e, Repeat(ms, n));
      Seconds(ms) - r.srtt == Decayed(Seconds(ms) - e.srtt, n) && 0.0 <= r.rttvar <= Decayed(c, n)
  {
    if n == 0 {
      assert Repeat(ms, 0) == [];
    } else {
      ConstantSamples(e, ms, n - 1, c);
      RepeatSnoc(e, ms, n);
      var d0 := Seconds(ms) - e.srtt;
      DecayedAbs(d0, n - 1);
      DecayedOrder(Abs(d0), c, n - 1);
    }
  }

  /** Hence the timeout approaches the sample, clamped to 2 to 60 seconds, at that rate... */
  lemma RtoError(e: Estimate, ms: nat, n: nat, c: real)
    requires n > 0 && 0.0 <= e.rttvar <= c && 2.0 * Abs(Seconds(ms) - e.srtt) <= c
    ensures Abs(StopAll(e, Repeat(ms, n)).rto - Clamp(Seconds(ms))) <= 5.0 * Decayed(c, n)
  {
    hide Seconds, Decayed, StopAll, Stop;
    var m := Seconds(ms);
    var d0 := m - e.srtt;
    ConstantSamples(e, ms, n, c);
    RepeatSnoc(e, ms, n);
    var r := StopAll(e, Repeat(ms, n));
    DecayedAbs(d0, n);
    DecayedOrder(Abs(d0), c, n);
    StopRto(StopAll(e, Repeat(ms, n - 1)), ms);
    ClampLipschitz(r.srtt + 4.0 * r.rttvar, m);
  }

  lemma StopRto(e: Estimate, ms: nat)
    ensures var r := Stop(e, ms); r.rto == Clamp(r.srtt + 4.0 * r.rttvar)
  {
  }

  lemma ClampLipschitz(x: real, y: real)
    ensures Abs(Clamp(x) - Clamp(y)) <= Abs(x - y)
  {
  }

  lemma Monotone(d: real, x: real, y: real)
    requires d >= 0.0 && x <= y
    ensures x * d <= y * d
  {
  }

  /** Bernoulli's inequality, (8/7)^n >= 1 + n/7, times c. */
  lemma {:induction false} DecayedBound(c: real, n: nat)
    requires c >= 0.0
    ensures Decayed(c, n) >= 0.0 && (n as real + 7.0) * Decayed(c, n) <= 7.0 * c
  {
    if n > 0 {
      DecayedBound(c, n - 1);
      var d, x := Decayed(c, n - 1), n as real;
      assert (n - 1) as real == x - 1.0;
      assert (x + 7.0) * (d * 7.0 / 8.0) == ((x + 7.0) * 7.0 / 8.0) * d;
      Monotone(d, (x + 7.0) * 7.0 / 8.0, x + 6.0);
    }
  }

  /** ...so it converges: after enough equal samples it is as close as one likes. */
  lemma RtoConverges(e: Estimate, ms: nat, n: nat, c: real, eps: real)
    requires 0.0 <= e.rttvar <= c && 2.0 * Abs(Seconds(ms) - e.srtt) <= c
    requires n > 0 && eps > 0.0 && n as real * eps >= 35.0 * c
    ensures Abs(StopAll(e, Repeat(ms, n)).rto - Clamp(Seconds(ms))) <= eps
  {
    hide Seconds, Decayed, StopAll, Clamp, Abs;
    RtoError(e, ms, n, c);
    assert c >= 0.0;
    DecayedBound(c, n);
    SmallEnough(Decayed(c, n), n as real, c, eps);
  }

  lemma SmallEnough(d: real, x: real, c: real, eps: real)
    requires d >= 0.0 && x > 0.0 && eps > 0.0 && x * eps >= 35.0 * c && (x + 7.0) * d <= 7.0 * c
    ensures 5.0 * d <= eps
  {
    assert (x + 7.0) * d == x * d + 7.0 * d;
    assert x * (5.0 * d) == 5.0 * (x * d);
    Cancel(x, 5.0 * d, eps);
  }

  lemma Cancel(x: real, a: real, b: real)
    requires x > 0.0 && x * a <= x * b
    ensures a <= b
  {
  }
}

/** The Internet checksum of libfree/in_cksum.c, and its copy with a signed accumulator in
    ping/bsdping.c, against the end-around-carry sum of RFC 1071. */
module Checksum {
  import opened CText

  type word = x: int | 0 <= x < 0x1_0000

  const TWO32: int := 0x1_0000_0000
  const TWO31: int := 0x8000_0000

  /** How the machine stores a 16-bit word. */
  datatype Order = Little | Big

  function Word(o: Order, first: byte, second: byte): word {
    var a: int, b: int := first, second;
    if o.Little? then b * 256 + a else a * 256 + b
  }

  /** The bytes that a word occupies in memory. */
  function Stored(o: Order, w: word): (m: seq<byte>)
    ensures |m| == 2 && Word(o, m[0], m[1]) == w
  {
    var x: int := w;
    if o.Little? then [x % 256, x / 256] else [x / 256, x % 256]
  }

  /** The message as words; an odd byte is padded with zero. */
  function Words(o: Order, m: seq<byte>): (ws: seq<word>)
    ensures |ws| == (|m| + 1) / 2
  {
    if m == [] then []
    else if |m| == 1 then [Word(o, m[0], 0)]
    else [Word(o, m[0], m[1])] + Words(o, m[2..])
  }

  /** Addition of 16-bit words with end-around carry (section 1 of RFC 1071). */
  function Eac(a: word, b: word): word {
    var x: int, y: int := a, b;
    if x + y >= 0x1_0000 then x + y - 0xffff else x + y
  }

  function EacSum(ws: seq<word>): word {
    if ws == [] then 0 else Eac(ws[0], EacSum(ws[1..]))
  }

  function Complement(w: word): word {
    var x: int := w;
    0xffff - x
  }

  /** The checksum as RFC 1071 defines it. */
  function Cksum(o: Order, m: seq<byte>): word {
    Complement(EacSum(Words(o, m)))
  }

  // ---------------------------------------------------------------------
  // The 32-bit sum and its two folds
  // ---------------------------------------------------------------------

  function Total(ws: seq<word>): nat {
    if ws == [] then 0
    else
      var x: int := ws[0];
      x + Total(ws[1..])
  }

  /** The one 16-bit value that is congruent to `t` modulo 65535, and 0 only for 0. */
  function Norm(t: nat): word {
    if t == 0 then 0 else (t - 1) % 0xffff + 1
  }

  lemma {:induction false} EacSumIsNorm(ws: seq<word>)
    ensures EacSum(ws) == Norm(Total(ws))
  {
    if ws != [] {
      EacSumIsNorm(ws[1..]);
      EacNorm(ws[0], Total(ws[1..]));
    }
  }

  lemma EacNorm(w: word, t: nat)
    ensures var x: int := w; Eac(w, Norm(t)) == Norm(x + t)
  {
  }

  /** Lines 28-30 of in_cksum.c. */
  function Folded(sum: nat): word
    requires sum < TWO32
  {
    var s := sum / 0x1_0000 + sum % 0x1_0000;
    var t := (s + s / 0x1_0000) % TWO32;
    0xffff - t % 0x1_0000
  }

  lemma TwoFoldsSuffice(sum: nat)
    requires sum < TWO32
    ensures Folded(sum) == Complement(Norm(sum))
  {
    var h, l := sum / 0x1_0000, sum % 0x1_0000;
    var s := h + l;
    assert sum == 0xffff * h + s;
    assert sum > 0 ==> s > 0 && (sum - 1) % 0xffff == (s - 1) % 0xffff;
  }

  lemma {:induction false} TotalBound(ws: seq<word>)
    ensures Total(ws) <= 0xffff * |ws|
  {
    if ws != [] {
      TotalBound(ws[1..]);
    }
  }

  /** Up to 131074 bytes the 32-bit sum cannot overflow. */
  lemma NoOverflow(o: Order, m: seq<byte>)
    requires |m| <= 131074
    ensures Total(Words(o, m)) < TWO32
  {
    TotalBound(Words(o, m));
  }

  lemma {:induction false} AllOnes(o: Order, n: nat)
    ensures Words(o, seq(2 * n, _ => 255)) == seq(n, _ => 0xffff)
    ensures Total(Words(o, seq(2 * n, _ => 255))) == 0xffff * n
  {
    var m: seq<byte> := seq(2 * n, _ => 255);
    if n > 0 {
      AllOnes(o, n - 1);
      assert m[2..] == seq(2 * (n - 1), _ => 255);
      assert Words(o, m)[1..] == Words(o, m[2..]);
    }
  }

  /** What the code computes when the sum wraps around. */
  function Wrapped(o: Order, m: seq<byte>): word {
    Folded(Total(Words(o, m)) % TWO32)
  }

  /** For every length an `int` can hold, the code is right exactly when the sum of the
      words fits in 32 bits. */
  lemma RightExactly(o: Order, m: seq<byte>)
    requires |m| < TWO31
    ensures Wrapped(o, m) == Cksum(o, m) <==> Total(Words(o, m)) < TWO32
  {
    var t := Total(Words(o, m));
    TotalBound(Words(o, m));
    EacSumIsNorm(Words(o, m));
    var q, r := t / TWO32, t % TWO32;
    TwoFoldsSuffice(r);
    WrapChanges(t, q, r);
  }

  lemma NormShift(t: nat, k: nat)
    requires t > 0
    ensures Norm(t + 0xffff * k) == Norm(t)
  {
    assert (t - 1 + 0xffff * k) % 0xffff == (t - 1) % 0xffff;
  }

  lemma SmallShift(r: nat, q: nat)
    requires 0 < q <= 0x4000
    ensures Norm(r) != Norm(q + r)
  {
  }

  lemma WrapChanges(t: nat, q: nat, r: nat)
    requires t == q * TWO32 + r && r < TWO32 && q <= 0x4000
    ensures Norm(r) == Norm(t) <==> q == 0
  {
    hide Norm;
    if q > 0 {
      assert t == q + r + 0xffff * (65537 * q);
      NormShift(q + r, 65537 * q);
      SmallShift(r, q);
    }
  }

  /** 131074 cannot be raised: two bytes more can make the result wrong. */
  lemma BoundIsSharp(o: Order)
    ensures var m: seq<byte> := seq(131076, _ => 255); Wrapped(o, m) != Cksum(o, m)
  {
    AllOnes(o, 65538);
    var m: seq<byte> := seq(131076, _ => 255);
    assert m == seq(2 * 65538, _ => 255);
    RightExactly(o, m);
  }

  // ---------------------------------------------------------------------
  // What the checksum is for
  // ---------------------------------------------------------------------

  /** An odd last byte counts as if a zero followed it. */
  lemma {:induction false} OddTailPadded(o: Order, m: seq<byte>)
    requires |m| % 2 == 1
    ensures Words(o, m) == Words(o, m + [0])
  {
    if |m| > 1 {
      OddTailPadded(o, m[2..]);
      assert (m + [0])[2..] == m[2..] + [0];
    }
  }

  /** The message with a word written at an even offset. */
  function Put(o: Order, m: seq<byte>, at: nat, w: word): (r: seq<byte>)
    requires at % 2 == 0 && at + 2 <= |m|
    ensures |r| == |m|
  {
    var b := Stored(o, w);
    m[at := b[0]][at + 1 := b[1]]
  }

  lemma {:induction false} PutTotal(o: Order, m: seq<byte>, at: nat, w: word)
    requires at % 2 == 0 && at + 2 <= |m|
    ensures var x: int, y: int := w, Word(o, m[at], m[at + 1]);
      Total(Words(o, Put(o, m, at, w))) == Total(Words(o, m)) - y + x
  {
    var r := Put(o, m, at, w);
    if at == 0 {
      assert r[2..] == m[2..];
    } else {
      PutTotal(o, m[2..], at - 2, w);
      assert r[2..] == Put(o, m[2..], at - 2, w);
    }
  }

  lemma ZeroWord(o: Order)
    ensures Word(o, 0, 0) == 0
  {
  }

  /** A message whose checksum field is zero, with its checksum written there, has
      checksum 0. */
  lemma ChecksumVerifies(o: Order, m: seq<byte>, at: nat)
    requires at % 2 == 0 && at + 2 <= |m| && m[at] == 0 && m[at + 1] == 0
    ensures Cksum(o, Put(o, m, at, Cksum(o, m))) == 0
  {
    hide Words, EacSum, Norm, Total, Stored;
    var c := Cksum(o, m);
    ZeroWord(o);
    var r := Put(o, m, at, c);
    EacSumIsNorm(Words(o, m));
    EacSumIsNorm(Words(o, r));
    PutTotal(o, m, at, c);
    Closes(Total(Words(o, m)));
  }

  lemma Closes(t: nat)
    ensures var c: int := Complement(Norm(t)); Norm(t + c) == 0xffff
  {
  }

  function Swapped(w: word): word {
    var x: int := w;
    x % 256 * 256 + x / 256
  }

  function SwappedAll(ws: seq<word>): (r: seq<word>)
    ensures |r| == |ws| && forall k :: 0 <= k < |ws| ==> r[k] == Swapped(ws[k])
  {
    seq(|ws|, k requires 0 <= k < |ws| => Swapped(ws[k]))
  }

  lemma SwappedIs(w: word)
    ensures var x: int, y: int := w, Swapped(w); 256 * x == 0xffff * (x / 256) + y && (y > 0 <==> x > 0)
  {
  }

  lemma NormTimes(t: nat)
    ensures Swapped(Norm(t)) == Norm(256 * t)
  {
    if t > 0 {
      var n: int := Norm(t);
      var k := (t - 1) / 0xffff;
      assert t == 0xffff * k + n;
      SwappedIs(n);
      var y: int := Swapped(n);
      NormShift(y, 256 * k + n / 256);
      assert Norm(y) == y;
    }
  }

  /** The carries that swapping moves out of the words. */
  function Highs(ws: seq<word>): nat {
    if ws == [] then 0
    else
      var x: int := ws[0];
      x / 256 + Highs(ws[1..])
  }

  lemma {:induction false} SwappedTotal(ws: seq<word>)
    ensures Total(SwappedAll(ws)) + 0xffff * Highs(ws) == 256 * Total(ws)
    ensures Total(SwappedAll(ws)) == 0 <==> Total(ws) == 0
  {
    if ws != [] {
      SwappedTotal(ws[1..]);
      assert SwappedAll(ws)[1..] == SwappedAll(ws[1..]);
    }
  }

  /** Byte-swapping every word byte-swaps the sum. */
  lemma SwapCommutes(ws: seq<word>)
    ensures EacSum(SwappedAll(ws)) == Swapped(EacSum(ws))
  {
    hide EacSum, Swapped, SwappedAll, Norm, Highs, Total;
    EacSumIsNorm(ws);
    EacSumIsNorm(SwappedAll(ws));
    SwappedTotal(ws);
    NormTimes(Total(ws));
    if Total(ws) > 0 {
      NormShift(Total(SwappedAll(ws)), Highs(ws));
    }
  }

  lemma {:induction false} OrdersSwap(m: seq<byte>)
    ensures Words(Little, m) == SwappedAll(Words(Big, m))
  {
    if |m| > 1 {
      OrdersSwap(m[2..]);
    }
  }

  lemma SwapStored(w: word)
    ensures Stored(Little, Complement(Swapped(w))) == Stored(Big, Complement(w))
  {
    var x: int := w;
    var h, l := x / 256, x % 256;
    assert 0xffff - (l * 256 + h) == (255 - l) * 256 + (255 - h);
    assert 0xffff - x == (255 - h) * 256 + (255 - l);
  }

  /** The bytes of the checksum in memory do not depend on the machine's byte order. */
  lemma OrderDoesNotMatter(m: seq<byte>)
    ensures Stored(Little, Cksum(Little, m)) == Stored(Big, Cksum(Big, m))
  {
    hide Words, EacSum, SwappedAll, Stored, Complement, Swapped;
    OrdersSwap(m);
    SwapCommutes(Words(Big, m));
    SwapStored(EacSum(Words(Big, m)));
  }

  // ---------------------------------------------------------------------
  // The two routines
  // ---------------------------------------------------------------------

  lemma {:induction false} TotalStep(o: Order, m: seq<byte>, i: nat)
    requires i < |m|
    ensures i + 1 < |m| ==>
      Total(Words(o, m[i..])) == (var x: int := Word(o, m[i], m[i + 1]); x) + Total(Words(o, m[i + 2..]))
    ensures i + 1 == |m| ==> Total(Words(o, m[i..])) == Word(o, m[i], 0)
  {
    if i + 1 < |m| {
      assert m[i..][2..] == m[i + 2..];
    }
  }

  lemma AddWraps(sum: int, x: int, rest: int)
    ensures ((sum + x) % TWO32 + rest) % TWO32 == (sum + (x + rest)) % TWO32
  {
  }

  lemma NothingLeft(o: Order, m: seq<byte>)
    ensures Total(Words(o, m[|m|..])) == 0
  {
  }

  /** The two folds, one statement at a time. */
  lemma FoldedIs(sum: nat, s: int, t: int)
    requires sum < TWO32 && s == sum / 0x1_0000 + sum % 0x1_0000
    requires t == (s + s / 0x1_0000) % TWO32
    ensures Folded(sum) == 0xffff - t % 0x1_0000 && s < TWO31 && s + s / 0x1_0000 < TWO31
  {
  }

  lemma WrappedIs(o: Order, m: seq<byte>, sum: nat)
    requires sum == Total(Words(o, m)) % TWO32
    ensures Wrapped(o, m) == Folded(sum)
  {
  }

  /** libfree/in_cksum.c on the first `len` bytes at `addr`, on a machine of either order. */
  method InCksum(o: Order, addr: array<byte>, len: int) returns (answer: word)
    requires -TWO31 <= len < TWO31 && len <= addr.Length
    ensures var m := addr[..if len < 0 then 0 else len];
      && answer == Wrapped(o, m)
      && (answer == Cksum(o, m) <==> Total(Words(o, m)) < TWO32)
      && (len <= 131074 ==> answer == Cksum(o, m))
  {
    hide Word, Words, Total, Folded, Wrapped, Cksum;
    ghost var m := addr[..if len < 0 then 0 else len];
    var nleft, w := len, 0;
    var sum := 0;
    assert m[0..] == m;
    while nleft > 1
      invariant 0 <= w <= |m| && (nleft == |m| - w || (len < 0 && nleft == len && w == |m|))
      invariant 0 <= sum < TWO32
      invariant (sum + Total(Words(o, m[w..]))) % TWO32 == Total(Words(o, m)) % TWO32
    {
      TotalStep(o, m, w);
      AddWraps(sum, Word(o, m[w], m[w + 1]), Total(Words(o, m[w + 2..])));
      sum := (sum + Word(o, addr[w], addr[w + 1])) % TWO32;
      w := w + 2;
      nleft := nleft - 2;
    }
    NothingLeft(o, m);
    if nleft == 1 {
      TotalStep(o, m, w);
      sum := (sum + Word(o, addr[w], 0)) % TWO32;
    }
    WrappedIs(o, m, sum);
    ghost var whole := sum;
    sum := sum / 0x1_0000 + sum % 0x1_0000;
    ghost var once := sum;
    sum := (sum + sum / 0x1_0000) % TWO32;
    answer := 0xffff - sum % 0x1_0000;
    FoldedIs(whole, once, sum);
    RightExactly(o, m);
    if len <= 131074 {
      NoOverflow(o, m);
    }
  }

  /** Messages of up to 65536 bytes fit a signed sum. That covers every length that
      `outpack` can hold (bsdping.c:122) and every one that the check of the data length
      lets through to `pinger` (bsdping.c:230-233, 424). */
  lemma PingFits(o: Order, m: seq<byte>)
    requires |m| <= 65536
    ensures Total(Words(o, m)) < TWO31
  {
    TotalBound(Words(o, m));
  }

  lemma CksumIs(o: Order, m: seq<byte>, sum: nat)
    requires sum == Total(Words(o, m)) < TWO32
    ensures Folded(sum) == Cksum(o, m)
  {
    hide Words, Total, Folded, EacSum, Norm;
    TwoFoldsSuffice(sum);
    EacSumIsNorm(Words(o, m));
  }

  /** ping/bsdping.c:635-666, whose accumulator is an `int` that must not overflow. */
  method InCksumSigned(o: Order, addr: array<byte>, len: int) returns (answer: word)
    requires 0 <= len < TWO31 && len <= addr.Length && Total(Words(o, addr[..len])) < TWO31
    ensures answer == Cksum(o, addr[..len])
  {
    hide Word, Words, Total, Folded, Cksum;
    ghost var m := addr[..len];
    var nleft, w := len, 0;
    var sum := 0;
    assert m[0..] == m;
    while nleft > 1
      invariant 0 <= w <= |m| && nleft == |m| - w
      invariant 0 <= sum && sum + Total(Words(o, m[w..])) == Total(Words(o, m))
    {
      TotalStep(o, m, w);
      sum := sum + Word(o, addr[w], addr[w + 1]);
      assert sum < TWO31;
      w := w + 2;
      nleft := nleft - 2;
    }
    NothingLeft(o, m);
    if nleft == 1 {
      TotalStep(o, m, w);
      sum := sum + Word(o, addr[w], 0);
    }
    ghost var whole := sum;
    CksumIs(o, m, whole);
    sum := sum / 0x1_0000 + sum % 0x1_0000;
    ghost var once := sum;
    sum := sum + sum / 0x1_0000;
    FoldedIs(whole, once, sum);
    answer := 0xffff - sum % 0x1_0000;
  }
}

/** IPv6 bytes to text: `inet_ntop6` (libfree/inet_ntop.c). */
module Inet6Print {
  import opened Wrappers
  import opened CText
  import opened Inet4
  import opened Inet6Parse

  // ---------------------------------------------------------------------
  // The run of zero words that becomes `::`
  // ---------------------------------------------------------------------

  /** A run of zero words; `base == -1` stands for none, as in the source. */
  datatype Run = Run(base: int, len: nat)

  const NO_RUN := Run(-1, 0)

  ghost predicate AllZero(w: seq<nat>, b: int, l: int) {
    0 <= b && b + l <= |w| && forall k :: b <= k < b + l ==> w[k] == 0
  }

  /** `best` is the leftmost of the longest nonempty zero runs within the first `n` words. */
  ghost predicate BestWithin(w: seq<nat>, n: nat, best: Run)
    requires n <= |w|
  {
    if best.base == -1 then
      forall k :: 0 <= k < n ==> w[k] != 0
    else
      && best.len >= 1 && AllZero(w, best.base, best.len) && best.base + best.len <= n
      && forall b, l :: l >= 1 && b + l <= n && AllZero(w, b, l) ==>
        l < best.len || (l == best.len && best.base <= b)
  }

  /** `cur` is the zero run that reaches up to word `i`. */
  ghost predicate Pending(w: seq<nat>, i: nat, cur: Run)
    requires i <= |w|
  {
    if cur.base == -1 then
      i == 0 || w[i - 1] != 0
    else
      && cur.len >= 1 && AllZero(w, cur.base, cur.len) && cur.base + cur.len == i
      && (cur.base == 0 || w[cur.base - 1] != 0)
  }

  /** A finished run competes with the best one so far. */
  lemma CloseRun(w: seq<nat>, i: nat, cur: Run, best: Run)
    requires i <= |w| && cur.base != -1 && Pending(w, i, cur) && BestWithin(w, cur.base, best)
    ensures BestWithin(w, i, if best.base == -1 || cur.len > best.len then cur else best)
  {
    var r := if best.base == -1 || cur.len > best.len then cur else best;
    forall b, l | l >= 1 && b + l <= i && AllZero(w, b, l)
      ensures l < r.len || (l == r.len && r.base <= b)
    {
      // a run that starts before `cur` cannot reach into it
      var k := if b < cur.base < b + l then cur.base - 1 else b;
      assert w[k] == 0;
    }
  }

  lemma SkipNonzero(w: seq<nat>, i: nat, best: Run)
    requires i < |w| && w[i] != 0 && BestWithin(w, i, best)
    ensures BestWithin(w, i + 1, best)
  {
    if best.base != -1 {
      forall b, l | l >= 1 && b + l <= i + 1 && AllZero(w, b, l)
        ensures l < best.len || (l == best.len && best.base <= b)
      {
        assert w[b + l - 1] == 0;
      }
    }
  }

  /** Lines 135-156: the leftmost longest zero run, if it has at least two words. */
  method FindRun(w: seq<nat>) returns (best: Run)
    ensures IsBestRun(w, best)
  {
    best := NO_RUN;
    var cur := NO_RUN;
    for i := 0 to |w|
      invariant cur.base >= -1 && best.base >= -1 && (best.base == -1 ==> best == NO_RUN)
      invariant Pending(w, i, cur) && BestWithin(w, if cur.base == -1 then i else cur.base, best)
    {
      if w[i] == 0 {
        if cur.base == -1 {
          cur := Run(i, 1);
        } else {
          cur := Run(cur.base, cur.len + 1);
        }
      } else {
        if cur.base != -1 {
          CloseRun(w, i, cur, best);
          if best.base == -1 || cur.len > best.len {
            best := cur;
          }
          cur := NO_RUN;
        }
        SkipNonzero(w, i, best);
      }
    }
    if cur.base != -1 {
      CloseRun(w, |w|, cur, best);
      if best.base == -1 || cur.len > best.len {
        best := cur;
      }
    }
    if best.base != -1 && best.len < 2 {
      assert forall b :: !AllZero(w, b, 2);
      best := NO_RUN;
    } else if best.base == -1 {
      forall b ensures !AllZero(w, b, 2) {
        if 0 <= b < |w| {
          assert w[b] != 0;
        }
      }
    }
  }

  /** The run that `::` stands for: the leftmost of the longest runs of two or more zero words. */
  ghost predicate IsBestRun(w: seq<nat>, best: Run) {
    if best.base == -1 then
      best == NO_RUN && forall b :: !AllZero(w, b, 2)
    else
      && best.len >= 2 && AllZero(w, best.base, best.len)
      && forall b, l :: l >= 1 && AllZero(w, b, l) ==> l < best.len || (l == best.len && best.base <= b)
  }

  lemma BestRunUnique(w: seq<nat>, r: Run, s: Run)
    requires IsBestRun(w, r) && IsBestRun(w, s)
    ensures r == s
  {
    if r.base != -1 {
      assert AllZero(w, r.base, 2);
    }
    if s.base != -1 {
      assert AllZero(w, s.base, 2);
    }
  }

  /** Length of the zero run that starts at `i`. */
  function ZerosAt(w: seq<nat>, i: nat): (l: nat)
    ensures i <= |w| ==> i + l <= |w|
    decreases |w| - i
  {
    if i < |w| && w[i] == 0 then 1 + ZerosAt(w, i + 1) else 0
  }

  /** Over starting positions from `i` on, the first with the longest run of two or more. */
  function BestFrom(w: seq<nat>, i: nat): (r: Run)
    ensures r.base == -1 || (r.base >= 0 && r.base + r.len <= |w|)
    decreases |w| - i
  {
    if i >= |w| then NO_RUN
    else
      var rest, here := BestFrom(w, i + 1), ZerosAt(w, i);
      if here >= 2 && here >= rest.len then Run(i, here) else rest
  }

  function BestRun(w: seq<nat>): (r: Run)
    ensures r.base == -1 || (r.base >= 0 && r.base + r.len <= |w|)
  {
    BestFrom(w, 0)
  }

  lemma {:induction false} ZerosAtLongest(w: seq<nat>, i: nat, l: nat)
    requires i <= |w|
    ensures AllZero(w, i, ZerosAt(w, i))
    ensures AllZero(w, i, l) ==> l <= ZerosAt(w, i)
    decreases |w| - i
  {
    if i < |w| && w[i] == 0 {
      ZerosAtLongest(w, i + 1, if l == 0 then 0 else l - 1);
    }
  }

  lemma {:induction false} BestFromLongest(w: seq<nat>, i: nat)
    requires i <= |w|
    ensures var r := BestFrom(w, i);
      && (r == NO_RUN || (i <= r.base && r.len >= 2 && AllZero(w, r.base, r.len)))
      && forall b, l :: i <= b && l >= 2 && AllZero(w, b, l) ==> l < r.len || (l == r.len && r.base <= b)
    decreases |w| - i
  {
    if i < |w| {
      BestFromLongest(w, i + 1);
      var r := BestFrom(w, i);
      ZerosAtLongest(w, i, 0);
      forall b, l | i <= b && l >= 2 && AllZero(w, b, l)
        ensures l < r.len || (l == r.len && r.base <= b)
      {
        if b == i {
          ZerosAtLongest(w, i, l);
        }
      }
    }
  }

  /** The functional definition meets the description, hence the search loop computes it. */
  lemma BestRunIsBest(w: seq<nat>)
    ensures IsBestRun(w, BestRun(w))
  {
    BestFromLongest(w, 0);
    var r := BestRun(w);
    if r == NO_RUN {
      forall b ensures !AllZero(w, b, 2) {}
    }
  }

  // ---------------------------------------------------------------------
  // The text
  // ---------------------------------------------------------------------

  /** `words[k]`: the loop of lines 132-134 ORs together disjoint bits. */
  function Word(a: seq<byte>, k: nat): (w: nat)
    requires 2 * k + 1 < |a|
    ensures w <= 0xffff
  {
    var high: int := a[2 * k];
    high * 256 + a[2 * k + 1]
  }

  function Words(a: seq<byte>): (w: seq<nat>)
    requires |a| == 16
    ensures |w| == 8 && forall k :: 0 <= k < 8 ==> w[k] == Word(a, k)
  {
    seq(8, k requires 0 <= k < 8 => Word(a, k))
  }

  function Groups(w: seq<nat>): (g: seq<string>)
    ensures |g| == |w| && forall k :: 0 <= k < |w| ==> g[k] == Numeral(w[k], Sixteen)
  {
    seq(|w|, k requires 0 <= k < |w| => Numeral(w[k], Sixteen))
  }

  function ColonJoin(f: seq<string>): string {
    if f == [] then "" else Join(Pieces(f[..|f| - 1], f[|f| - 1]), ':')
  }

  /** A leading run of six zero words, or of five before 0xffff, marks an IPv4 address. */
  predicate HoldsIPv4(w: seq<nat>, r: Run)
    requires |w| == 8
  {
    r.base == 0 && (r.len == 6 || (r.len == 5 && w[5] == 0xffff))
  }

  /** The preferred text of an address: all eight groups, or `::` for the best zero run,
      or the mixed notation. */
  function Text6(a: seq<byte>): string
    requires |a| == 16
  {
    var w := Words(a);
    var g, r := Groups(w), BestRun(w);
    if r.base == -1 then ColonJoin(g)
    else if HoldsIPv4(w, r) then
      "::" + (if r.len == 5 then g[5] + ":" else "") + Dotted(a[12..])
    else
      ColonJoin(g[..r.base]) + "::" + ColonJoin(g[r.base + r.len..])
  }

  /** What lines 162-183 have written before word `i`. */
  function Printed(g: seq<string>, r: Run, i: nat): string
    requires i <= |g| && (r.base >= 0 ==> r.base + r.len <= |g|)
  {
    if r.base < 0 || i <= r.base then ColonJoin(g[..i])
    else if i <= r.base + r.len then ColonJoin(g[..r.base]) + ":"
    else ColonJoin(g[..r.base]) + "::" + ColonJoin(g[r.base + r.len..i])
  }

  lemma ColonJoinSnoc(f: seq<string>, t: string)
    ensures ColonJoin(f + [t]) == if f == [] then t else ColonJoin(f) + ":" + t
  {
    assert (f + [t])[..|f|] == f;
    if f != [] {
      var n := |f| - 1;
      assert Pieces(f, t).done[..n] == f[..n];
    }
  }

  /** One round of the printing loop outside the run. */
  lemma PrintGroup(g: seq<string>, r: Run, i: nat)
    requires i < |g| && (r.base >= 0 ==> r.base + r.len <= |g| && r.len >= 1)
    requires !(r.base >= 0 && r.base <= i < r.base + r.len)
    ensures Printed(g, r, i + 1) == Printed(g, r, i) + (if i != 0 then ":" else "") + g[i]
  {
    hide ColonJoin;
    if r.base < 0 || i < r.base {
      ColonJoinSnoc(g[..i], g[i]);
      assert g[..i + 1] == g[..i] + [g[i]];
      assert i == 0 ==> ColonJoin(g[..0]) == "" by { ColonJoinEmpty(); assert g[..0] == []; }
    } else {
      var e := r.base + r.len;
      ColonJoinSnoc(g[e..i], g[i]);
      assert g[e..i + 1] == g[e..i] + [g[i]];
    }
  }

  lemma ColonJoinEmpty()
    ensures ColonJoin([]) == ""
  {
  }

  lemma GroupLength(w: seq<nat>, k: nat)
    requires k < |w| && w[k] <= 0xffff
    ensures 1 <= |Groups(w)[k]| <= 4
  {
    NumeralLength(w[k], Sixteen, 3);
  }

  lemma ColonJoinLength(f: seq<string>)
    requires forall k :: 0 <= k < |f| ==> |f[k]| <= 4
    ensures |ColonJoin(f)| <= if f == [] then 0 else 5 * |f| - 1
  {
    if f != [] {
      JoinLength(Pieces(f[..|f| - 1], f[|f| - 1]), ':', 4);
    }
  }

  /** The text never needs more than 39 characters. */
  lemma Text6Length(a: seq<byte>)
    requires |a| == 16
    ensures |Text6(a)| <= 39
  {
    hide ColonJoin, Join;
    var w := Words(a);
    var g, r := Groups(w), BestRun(w);
    BestRunIsBest(w);
    forall k | 0 <= k < 8 ensures |g[k]| <= 4 {
      GroupLength(w, k);
    }
    ColonJoinLength(g);
    if r.base != -1 {
      ColonJoinLength(g[..r.base]);
      ColonJoinLength(g[r.base + r.len..]);
      DottedLength(a[12..]);
    }
  }

  /** The rounds inside the best run: one colon, at its start. */
  lemma PrintRun(g: seq<string>, r: Run, i: nat)
    requires i < |g| && r.len >= 1 && 0 <= r.base <= i < r.base + r.len <= |g|
    ensures Printed(g, r, i + 1) == Printed(g, r, i) + if i == r.base then ":" else ""
  {
    hide ColonJoin;
  }

  /** What the loop and the colon behind it have written is the text. */
  lemma PrintAll(a: seq<byte>)
    requires |a| == 16 && !HoldsIPv4(Words(a), BestRun(Words(a)))
    ensures var w := Words(a);
      var g, r := Groups(w), BestRun(w);
      Text6(a) == Printed(g, r, 8) + if r.base != -1 && r.base + r.len == 8 then ":" else ""
  {
    hide ColonJoin;
    var w := Words(a);
    var g, r := Groups(w), BestRun(w);
    assert g[..8] == g;
    if r.base != -1 && r.base + r.len == 8 {
      assert g[8..] == [];
      ColonJoinEmpty();
      BestRunIsBest(w);
    } else if r.base != -1 {
      BestRunIsBest(w);
      assert g[r.base + r.len..8] == g[r.base + r.len..];
    }
  }

  /** The mixed notation is what is written up to word 6, one more colon, and the quad. */
  lemma PrintMixed(a: seq<byte>)
    requires |a| == 16 && HoldsIPv4(Words(a), BestRun(Words(a)))
    ensures var w := Words(a);
      Text6(a) == Printed(Groups(w), BestRun(w), 6) + ":" + Dotted(a[12..])
  {
    hide ColonJoin;
    var w := Words(a);
    var g, r := Groups(w), BestRun(w);
    ColonJoinEmpty();
    assert g[..0] == [];
    if r.len == 5 {
      assert g[5..6] == [g[5]];
      ColonJoinSnoc([], g[5]);
      assert [] + [g[5]] == [g[5]];
      PrintGroup(g, r, 5);
    }
  }

  /** `src[i] << ((1 - (i % 2)) << 3)` */
  function Shifted(src: seq<byte>, i: nat): nat
    requires i < |src|
  {
    ShiftLeft(src[i], (1 - i % 2) * 8)
  }

  lemma ShiftedIs(src: seq<byte>, i: nat)
    requires i < |src|
    ensures var v: nat := src[i]; Shifted(src, i) == if i % 2 == 0 then v * 256 else v
  {
    hide ShiftLeft;
    if i % 2 == 0 {
      ShiftByEight(src[i]);
    } else {
      NoShift(src[i]);
    }
  }

  lemma NoShift(a: nat)
    ensures ShiftLeft(a, 0) == a
  {
  }

  /** The second byte of a word goes where the first has left zeros. */
  lemma OrWord(src: seq<byte>, i: nat)
    requires |src| == 16 && i < 16
    ensures Or(if i % 2 == 0 then 0 else Shifted(src, i - 1), Shifted(src, i)) ==
      if i % 2 == 0 then Shifted(src, i) else Word(src, i / 2)
  {
    hide ShiftLeft, Or, Shifted;
    ShiftedIs(src, i);
    if i % 2 == 0 {
      OrZero(Shifted(src, i));
    } else {
      ShiftedIs(src, i - 1);
      ShiftByEight(src[i - 1]);
      ShiftByEight(1);
      OrAdds(src[i - 1], src[i], 8);
    }
  }

  /** Lines 132-134: the bytes, two by two. */
  method MakeWords(src: seq<byte>) returns (w: seq<nat>)
    requires |src| == 16
    ensures w == Words(src)
  {
    var words := new nat[8](_ => 0);
    for i := 0 to 16
      invariant forall k :: 0 <= k < 8 ==>
        words[k] == if 2 * k + 1 < i then Word(src, k) else if 2 * k < i then Shifted(src, 2 * k) else 0
    {
      OrWord(src, i);
      words[i / 2] := Or(words[i / 2], Shifted(src, i));
    }
    return words[..];
  }

  /** `*tp++ = c` */
  method PutChar(tmp: array<char>, tp: nat, c: char) returns (tp': nat)
    requires tp < tmp.Length
    modifies tmp
    ensures tp' == tp + 1 && tmp[..tp'] == old(tmp[..tp]) + [c]
  {
    tmp[tp] := c;
    return tp + 1;
  }

  /** `sprintf(tp, ...); tp += strlen(tp)` */
  method PutString(tmp: array<char>, tp: nat, s: string) returns (tp': nat)
    requires tp + |s| < tmp.Length
    modifies tmp
    ensures tp' == tp + |s| && tmp[..tp'] == old(tmp[..tp]) + s
  {
    SPrint(tmp, tp, s);
    return tp + |s|;
  }

  /** Lines 161-187: the text and its NUL in the scratch buffer, which is large enough. */
  method Format(src: seq<byte>, words: seq<nat>, best: Run, tmp: array<char>) returns (tp: nat)
    requires |src| == 16 && words == Words(src) && best == BestRun(words) && tmp.Length == 46
    modifies tmp
    ensures tp <= tmp.Length && tmp[..tp] == Text6(src) + ['\0']
  {
    hide Printed, Text6, BestRun, ColonJoin, Dotted;
    ghost var g := Groups(words);
    ghost var a := src;
    BestRunIsBest(words);
    PrintNothing(g, best);
    tp := 0;
    var i := 0;
    while i < 8
      invariant i <= 8 && tp <= 5 * i && tmp[..tp] == Printed(g, best, i)
      invariant best.base == 0 && HoldsIPv4(words, best) ==>
        i <= 6 && tp <= i + 1 + (if i == 6 && best.len == 5 then 4 else 0)
    {
      if best.base != -1 && i >= best.base && i < best.base + best.len {
        PrintRun(g, best, i);
        if i == best.base {
          tp := PutChar(tmp, tp, ':');
        }
        i := i + 1;
        continue;
      }
      PrintGroup(g, best, i);
      GroupLength(words, i);
      if i != 0 {
        tp := PutChar(tmp, tp, ':');
      }
      if i == 6 && HoldsIPv4(words, best) {
        DottedLength(src[12..]);
        PrintMixed(src);
        var ok, _ := InetNtop4(src[12..], tmp, tp, 46 - tp);
        assert ok;
        tp := tp + |Dotted(src[12..])|;
        break;
      }
      tp := PutString(tmp, tp, Numeral(words[i], Sixteen));
      i := i + 1;
    }
    if i == 8 {
      PrintAll(src);
    }
    if best.base != -1 && best.base + best.len == 8 {
      tp := PutChar(tmp, tp, ':');
    }
    tp := PutChar(tmp, tp, '\0');
  }

  lemma PrintNothing(g: seq<string>, r: Run)
    requires r.base >= 0 ==> r.base + r.len <= |g|
    ensures Printed(g, r, 0) == ""
  {
    assert g[..0] == [];
  }

  /** Prints `src` at `dst` and returns true when text and NUL fit into `size`
      characters; otherwise (the source returns NULL) nothing is touched. */
  method InetNtop6(src: seq<byte>, dst: array<char>, size: nat) returns (ok: bool)
    requires |src| == 16 && size <= dst.Length
    modifies dst
    ensures ok == (|Text6(src)| + 1 <= size)
    ensures ok ==> dst[..] == Text6(src) + ['\0'] + old(dst[|Text6(src)| + 1..])
    ensures !ok ==> dst[..] == old(dst[..])
  {
    hide Text6, BestRun;
    var tmp := new char[46];   // sizeof "ffff:ffff:ffff:ffff:ffff:ffff:255.255.255.255"
    var words := MakeWords(src);
    var best := FindRun(words);
    BestRunIsBest(words);
    BestRunUnique(words, best, BestRun(words));
    var tp := Format(src, words, best, tmp);
    if tp > size {
      return false;
    }
    var text := tmp[..tp - 1];
    SPrint(dst, 0, text);
    return true;
  }
}

/** What `inet_ntop6` (libfree/inet_ntop.c) prints, said of the bytes alone: when the last
    four are dotted, where `::` stands, and how a group is written. */
module Inet6Text {
  import opened Wrappers
  import opened CText
  import opened Inet4
  import opened Inet6Parse
  import opened Inet6Print

  // ---------------------------------------------------------------------
  // Numerals
  // ---------------------------------------------------------------------

  /** Digits as "%u" and "%x" write them. */
  predicate Printable(s: string, b: Base) {
    forall c :: c in s ==> '0' <= c <= '9' || (b == Sixteen && 'a' <= c <= 'f')
  }

  lemma {:induction false} ValuePositive(s: string, b: Base)
    requires s != "" && s[0] != '0' && Printable(s, b)
    ensures Value(s, b) > 0
    decreases |s|
  {
    var t := s[..|s| - 1];
    if t != "" {
      assert forall c :: c in t ==> c in s;
      ValuePositive(t, b);
    } else {
      assert s[0] in s;
    }
  }

  /** The numeral is the one text in small letters, without a leading zero, of that value. */
  lemma {:induction false} NumeralIs(n: nat, b: Base, s: string)
    ensures s == Numeral(n, b) <==>
      s != "" && Printable(s, b) && (|s| > 1 ==> s[0] != '0') && Value(s, b) == n
  {
    NumeralPlain(n, b);
    NumeralRoundTrip(n, b);
    if s != "" && Printable(s, b) && (|s| > 1 ==> s[0] != '0') && Value(s, b) == n {
      NumeralOf(s, b);
    }
  }

  lemma {:induction false} NumeralPlain(n: nat, b: Base)
    ensures var s := Numeral(n, b); Printable(s, b) && (|s| > 1 ==> s[0] != '0') && (n > 0 ==> s[0] != '0')
    decreases n
  {
    var (q, d) := Cut(n, b);
    if q > 0 {
      NumeralPlain(q, b);
    }
  }

  lemma {:induction false} NumeralOf(s: string, b: Base)
    requires s != "" && Printable(s, b) && (|s| > 1 ==> s[0] != '0')
    ensures Numeral(Value(s, b), b) == s
    decreases |s|
  {
    hide Value, Numeral, Digit, Shift, DigitValue;
    var t, c := s[..|s| - 1], s[|s| - 1];
    assert s == t + [c] && c in s;
    assert forall x :: x in t ==> x in s;
    DigitOf(c, b);
    ValueSnoc(t, c, b);
    NumeralSnoc(Value(t, b), DigitValue(c), b);
    if t == "" {
      ValueEmpty(b);
    } else {
      ValuePositive(t, b);
      NumeralOf(t, b);
    }
  }

  lemma NumeralSnoc(q: nat, d: nat, b: Base)
    requires d < if b == Ten then 10 else 16
    ensures Numeral(Shift(q, b) + d, b) == (if q == 0 then "" else Numeral(q, b)) + [Digit(d)]
  {
    hide Digit;
    CutIs(q, d, b);
  }

  lemma DigitOf(c: char, b: Base)
    requires '0' <= c <= '9' || (b == Sixteen && 'a' <= c <= 'f')
    ensures Digit(DigitValue(c)) == c && DigitValue(c) < if b == Ten then 10 else 16
  {
  }

  lemma CutIs(q: nat, d: nat, b: Base)
    requires d < if b == Ten then 10 else 16
    ensures Cut(Shift(q, b) + d, b) == (q, d)
  {
  }

  // ---------------------------------------------------------------------
  // The dotted form
  // ---------------------------------------------------------------------

  /** The first `n` bytes are zero. */
  predicate ZeroUpTo(a: seq<byte>, n: nat)
    requires n <= |a|
  {
    forall k :: 0 <= k < n ==> a[k] == 0
  }

  /** Twelve zero bytes in front of an address that is not below 0.1.0.0. */
  predicate Compatible(a: seq<byte>)
    requires |a| == 16
  {
    ZeroUpTo(a, 12) && (a[12] != 0 || a[13] != 0)
  }

  /** Ten zero bytes and two of 255. */
  predicate Mapped(a: seq<byte>)
    requires |a| == 16
  {
    ZeroUpTo(a, 10) && a[10] == 255 && a[11] == 255
  }

  lemma WordZero(a: seq<byte>, k: nat)
    requires |a| == 16 && k < 8
    ensures Words(a)[k] == 0 <==> a[2 * k] == 0 && a[2 * k + 1] == 0
    ensures Words(a)[k] == 0xffff <==> a[2 * k] == 255 && a[2 * k + 1] == 255
  {
  }

  lemma WordsZero(a: seq<byte>, n: nat)
    requires |a| == 16 && n <= 8
    ensures AllZero(Words(a), 0, n) <==> ZeroUpTo(a, 2 * n)
  {
    var w := Words(a);
    if AllZero(w, 0, n) {
      forall k | 0 <= k < 2 * n ensures a[k] == 0 {
        WordZero(a, k / 2);
      }
    }
    if ZeroUpTo(a, 2 * n) {
      forall k | 0 <= k < n ensures w[k] == 0 {
        WordZero(a, k);
      }
    }
  }

  /** Zero runs of five or six words at the front are the best ones when a word that is
      not zero follows. */
  lemma FrontIsBest(w: seq<nat>, n: nat)
    requires |w| == 8 && (n == 5 || n == 6) && AllZero(w, 0, n) && w[n] != 0
    ensures BestRun(w) == Run(0, n)
  {
    BestRunIsBest(w);
    forall b, l | l >= 1 && AllZero(w, b, l) ensures l < n || (l == n && 0 <= b) {
      assert !(b <= n < b + l);
    }
    BestRunUnique(w, BestRun(w), Run(0, n));
  }

  lemma HoldsExactly(a: seq<byte>)
    requires |a| == 16
    ensures HoldsIPv4(Words(a), BestRun(Words(a))) <==> Compatible(a) || Mapped(a)
    ensures Compatible(a) ==> BestRun(Words(a)) == Run(0, 6)
    ensures Mapped(a) ==> BestRun(Words(a)) == Run(0, 5)
  {
    hide BestRun;
    var w := Words(a);
    var r := BestRun(w);
    BestRunIsBest(w);
    WordsZero(a, 5);
    WordsZero(a, 6);
    WordZero(a, 5);
    WordZero(a, 6);
    if Compatible(a) {
      FrontIsBest(w, 6);
    }
    if Mapped(a) {
      FrontIsBest(w, 5);
    }
    if r == Run(0, 6) {
      assert !AllZero(w, 0, 7);
    }
  }

  lemma {:induction false} JoinWithout(p: Pieces, sep: char, c: char)
    requires c != sep && c !in p.last && forall k :: 0 <= k < |p.done| ==> c !in p.done[k]
    ensures c !in Join(p, sep)
    decreases |p.done|
  {
    if p.done != [] {
      var n := |p.done| - 1;
      JoinWithout(Pieces(p.done[..n], p.done[n]), sep, c);
    }
  }

  lemma NoDots(f: seq<string>)
    requires forall k :: 0 <= k < |f| ==> Printable(f[k], Sixteen)
    ensures '.' !in ColonJoin(f)
  {
    hide Join;
    forall k | 0 <= k < |f| ensures '.' !in f[k] {
      assert Printable(f[k], Sixteen);
    }
    if f != [] {
      JoinWithout(Pieces(f[..|f| - 1], f[|f| - 1]), ':', '.');
    }
  }

  lemma GroupsPlain(w: seq<nat>)
    ensures forall k :: 0 <= k < |w| ==> Printable(Groups(w)[k], Sixteen)
  {
    forall k | 0 <= k < |w| ensures Printable(Groups(w)[k], Sixteen) {
      NumeralPlain(w[k], Sixteen);
    }
  }

  lemma AllOnesNumeral()
    ensures Numeral(0xffff, Sixteen) == "ffff"
  {
    assert Numeral(0xf, Sixteen) == "f";
    assert Numeral(0xff, Sixteen) == "ff";
    assert Numeral(0xfff, Sixteen) == "fff";
  }

  lemma HasDot(b: seq<byte>)
    requires |b| == 4
    ensures '.' in Dotted(b)
  {
    hide Dotted, Numeral;
    DottedIs(b);
  }

  /** The last four bytes are dotted exactly in these two kinds of addresses, and then
      that is the text. */
  lemma DottedExactly(a: seq<byte>)
    requires |a| == 16
    ensures '.' in Text6(a) <==> Compatible(a) || Mapped(a)
    ensures Compatible(a) ==> Text6(a) == "::" + Dotted(a[12..])
    ensures Mapped(a) ==> Text6(a) == "::ffff:" + Dotted(a[12..])
  {
    hide ColonJoin, Dotted, Numeral, BestRun;
    var w := Words(a);
    var g, r := Groups(w), BestRun(w);
    HoldsExactly(a);
    AllOnesNumeral();
    HasDot(a[12..]);
    if Mapped(a) {
      WordZero(a, 5);
      assert "::" + (g[5] + ":") + Dotted(a[12..]) == "::ffff:" + Dotted(a[12..]);
    } else if Compatible(a) {
      assert "::" + "" + Dotted(a[12..]) == "::" + Dotted(a[12..]);
    } else {
      GroupsPlain(w);
      NoDots(g);
      if r.base != -1 {
        NoDots(g[..r.base]);
        NoDots(g[r.base + r.len..]);
      }
    }
  }

  // ---------------------------------------------------------------------
  // The gap
  // ---------------------------------------------------------------------

  ghost predicate ZerosIn(w: seq<nat>, b: int, l: int) {
    0 <= b <= b + l <= |w| && forall k :: b <= k < b + l ==> w[k] == 0
  }

  /** Words `b` to `b + l` are zero, and no other zero words in a row are more, or as many
      and further to the left. */
  ghost predicate LeftmostLongest(w: seq<nat>, b: nat, l: nat) {
    l > 0 && ZerosIn(w, b, l) && forall c, m :: m > 0 && ZerosIn(w, c, m) ==> m < l || (m == l && b <= c)
  }

  /** Otherwise the groups are separated by colons, and two for the leftmost longest run
      of zero groups if there are two or more of them; a single one is written out. */
  lemma GapExactly(a: seq<byte>, b: nat, l: nat)
    requires |a| == 16 && !Compatible(a) && !Mapped(a)
    ensures LeftmostLongest(Words(a), b, l) && l >= 2 ==>
      Text6(a) == ColonJoin(Groups(Words(a)[..b])) + "::" + ColonJoin(Groups(Words(a)[b + l..]))
    ensures (forall k :: 0 <= k < 7 ==> Words(a)[k] != 0 || Words(a)[k + 1] != 0) ==>
      Text6(a) == ColonJoin(Groups(Words(a)))
  {
    hide ColonJoin, Numeral, BestRun, Words;
    var w := Words(a);
    var g, r := Groups(w), BestRun(w);
    HoldsExactly(a);
    BestRunIsBest(w);
    if LeftmostLongest(w, b, l) && l >= 2 {
      LongestIsBest(w, b, l);
      assert Groups(w[..b]) == g[..b] && Groups(w[b + l..]) == g[b + l..];
    }
    if r.base != -1 {
      assert w[r.base] == 0 && w[r.base + 1] == 0;
    }
  }

  lemma LongestIsBest(w: seq<nat>, b: nat, l: nat)
    requires LeftmostLongest(w, b, l) && l >= 2
    ensures BestRun(w) == Run(b, l)
  {
    BestRunIsBest(w);
    forall c, m | m >= 1 && AllZero(w, c, m) ensures m < l || (m == l && b <= c) {
      assert ZerosIn(w, c, m);
    }
    BestRunUnique(w, BestRun(w), Run(b, l));
  }

  /** The group at place `k` is the number of bytes 2k and 2k + 1, the high one first. */
  lemma GroupValue(a: seq<byte>, k: nat)
    requires |a| == 16 && k < 8
    ensures var high: int := a[2 * k];
      Value(Groups(Words(a))[k], Sixteen) == high * 256 + a[2 * k + 1]
  {
    hide Value, Numeral;
    NumeralRoundTrip(Word(a, k), Sixteen);
  }
}

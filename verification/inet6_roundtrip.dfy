/** Section 2.2 of RFC 1884: what `inet_pton6` makes of the standard text forms, and the
    round trip of every address through `inet_ntop6` and back. */
module Inet6RoundTrip {
  import opened Wrappers
  import opened CText
  import opened Inet4
  import opened Inet6Parse
  import opened Inet6Print

  predicate AreGroups(f: seq<string>) {
    forall k :: 0 <= k < |f| ==> IsGroup(f[k])
  }

  /** Groups, or groups and a dotted quad at the end. */
  predicate IsTail(p: Pieces) {
    AreGroups(p.done) && (IsGroup(p.last) || Quad(p.last).Some?)
  }

  lemma GroupsInner(f: seq<string>)
    requires AreGroups(f)
    ensures AreInner(f)
  {
  }

  function TailBytes(p: Pieces): seq<byte>
    requires IsTail(p)
  {
    GroupsInner(p.done);
    InnerBytes(p.done) + if IsGroup(p.last) then WordBytes(Value(p.last, Sixteen)) else Quad(p.last).value
  }

  lemma InnerSnoc(f: seq<string>, t: string)
    requires AreInner(f) && IsInner(t)
    ensures AreInner(f + [t])
    ensures InnerBytes(f + [t]) == InnerBytes(f) + if t == "" then [] else WordBytes(Value(t, Sixteen))
    ensures Gaps(f + [t]) == Gaps(f) + if t == "" then 1 else 0
    ensures GapAt(f + [t]) == if t == "" then Some(|InnerBytes(f)|) else GapAt(f)
  {
    assert (f + [t])[..|f|] == f;
  }

  lemma {:induction false} NoGaps(f: seq<string>)
    requires AreGroups(f)
    ensures AreInner(f) && Gaps(f) == 0 && GapAt(f) == None
  {
    if f != [] {
      var n := |f| - 1;
      NoGaps(f[..n]);
      InnerSnoc(f[..n], f[n]);
      assert f == f[..n] + [f[n]];
    }
  }

  /** Groups, a gap, groups: the bytes are those of the groups and the gap is in between. */
  lemma {:induction false} OneGap(f: seq<string>, h: seq<string>)
    requires AreGroups(f) && AreGroups(h)
    ensures var g := f + [""] + h;
      && AreInner(f) && AreInner(h) && AreInner(g) && Gaps(g) == 1
      && InnerBytes(g) == InnerBytes(f) + InnerBytes(h) && GapAt(g) == Some(|InnerBytes(f)|)
    decreases |h|
  {
    hide InnerBytes, Value, Gaps, GapAt;
    NoGaps(f);
    if h == [] {
      InnerSnoc(f, "");
      InnerBytesEmpty();
      assert f + [""] + h == f + [""];
    } else {
      var m := |h| - 1;
      OneGap(f, h[..m]);
      InnerSnoc(f + [""] + h[..m], h[m]);
      InnerSnoc(h[..m], h[m]);
      assert h == h[..m] + [h[m]];
      assert f + [""] + h == f + [""] + h[..m] + [h[m]];
    }
  }

  // ---------------------------------------------------------------------
  // Characters
  // ---------------------------------------------------------------------

  lemma GroupPlain(t: string)
    requires IsGroup(t)
    ensures ':' !in t && t[0] != ':'
  {
    hide Value;
    assert !IsHexDigit(':');
    assert t[0] in t;
  }

  lemma QuadPlain(t: string)
    requires Quad(t).Some?
    ensures ':' !in t && t != ""
  {
    hide Quad;
    if ':' in t {
      var k :| 0 <= k < |t| && t[k] == ':';
      QuadCharacters(t, k);
    }
    if t == "" {
      QuadNotEmpty();
    }
  }

  lemma QuadNotEmpty()
    ensures Quad("") == None
  {
  }

  lemma TailSeparable(p: Pieces)
    requires IsTail(p)
    ensures Separable(p, ':')
  {
    hide Quad, Value;
    forall k | 0 <= k < |p.done| ensures ':' !in p.done[k] {
      GroupPlain(p.done[k]);
    }
    if IsGroup(p.last) {
      GroupPlain(p.last);
    } else {
      QuadPlain(p.last);
    }
  }

  lemma TailLast(p: Pieces)
    requires IsTail(p)
    ensures LastBytes(p.last).Some?
    ensures TailBytes(p) == (GroupsInner(p.done); InnerBytes(p.done)) + LastBytes(p.last).value
  {
    hide Quad, Value, InnerBytes;
    if !IsGroup(p.last) {
      QuadPlain(p.last);
    }
  }

  lemma {:induction false} JoinStart(p: Pieces)
    requires IsTail(p)
    ensures Join(p, ':') != "" && Join(p, ':')[0] != ':'
    decreases |p.done|
  {
    if p.done == [] {
      if IsGroup(p.last) {
        GroupPlain(p.last);
      } else {
        QuadPlain(p.last);
        assert p.last[0] in p.last;
      }
    } else {
      var n := |p.done| - 1;
      JoinStart(Pieces(p.done[..n], p.done[n]));
    }
  }

  // ---------------------------------------------------------------------
  // The standard forms
  // ---------------------------------------------------------------------

  /** The full form: eight groups, or six and a dotted quad, each group of any length
      and in either case. */
  lemma ParseFull(p: Pieces)
    requires IsTail(p) && |TailBytes(p)| == 16
    ensures Parse6(Join(p, ':')) == Some(TailBytes(p))
  {
    hide Split, Join, Quad, Value, InnerBytes, Gaps, GapAt, LastBytes;
    JoinStart(p);
    TailSeparable(p);
    SplitJoin(p, ':');
    NoGaps(p.done);
    TailLast(p);
  }

  /** The pieces of a text with `::` in it; what follows `::` may be nothing. */
  function GapPieces(pre: seq<string>, post: Option<Pieces>): Pieces {
    match post
    case None => Pieces(pre + [""], "")
    case Some(p) => Pieces(pre + [""] + p.done, p.last)
  }

  function GapText(pre: seq<string>, post: Option<Pieces>): string {
    ColonJoin(pre) + "::" + if post.None? then "" else Join(post.value, ':')
  }

  lemma AssembleGap(pre: seq<string>, post: Option<Pieces>)
    requires AreGroups(pre) && (post.Some? ==> IsTail(post.value))
    ensures AreInner(pre)
    ensures var tail := if post.None? then [] else TailBytes(post.value);
      |InnerBytes(pre)| + |tail| <= 16 ==>
      Assemble(GapPieces(pre, post)) == Some(Expand(InnerBytes(pre) + tail, |InnerBytes(pre)|))
  {
    hide Quad, Value, InnerBytes, Gaps, GapAt, Expand;
    GroupsInner(pre);
    match post
    case None =>
      OneGap(pre, []);
      assert pre + [""] + [] == pre + [""];
      assert InnerBytes([]) == [] by { InnerBytesEmpty(); }
      assert InnerBytes(pre) + [] == InnerBytes(pre);
    case Some(p) =>
      OneGap(pre, p.done);
      TailLast(p);
      var last := LastBytes(p.last).value;
      assert InnerBytes(pre) + InnerBytes(p.done) + last == InnerBytes(pre) + (InnerBytes(p.done) + last);
  }

  lemma InnerBytesEmpty()
    ensures InnerBytes([]) == []
  {
  }

  lemma JoinEmpty()
    ensures Join(Pieces([], ""), ':') == ""
  {
  }

  /** Joining with an empty piece in front writes a colon first. */
  lemma JoinGap(q: Pieces)
    ensures Join(Pieces([""] + q.done, q.last), ':') == ":" + Join(q, ':')
  {
    hide Join;
    JoinConcat(Pieces([], ""), q, ':');
    JoinEmpty();
    assert [] + [""] + q.done == [""] + q.done;
    assert "" + [':'] + Join(q, ':') == ":" + Join(q, ':');
  }

  lemma JoinAfter(pre: seq<string>, q: Pieces)
    requires pre != []
    ensures Join(Pieces(pre + [""] + q.done, q.last), ':') == ColonJoin(pre) + "::" + Join(q, ':')
  {
    hide Join;
    var n := |pre| - 1;
    var p, rest := Pieces(pre[..n], pre[n]), Pieces([""] + q.done, q.last);
    JoinConcat(p, rest, ':');
    JoinGap(q);
    assert p.done + [p.last] + rest.done == pre + [""] + q.done;
    assert Join(p, ':') + [':'] + (":" + Join(q, ':')) == ColonJoin(pre) + "::" + Join(q, ':');
  }

  lemma ColonJoinStart(pre: seq<string>)
    requires AreGroups(pre) && pre != []
    ensures ColonJoin(pre) != "" && ColonJoin(pre)[0] != ':'
  {
    hide Join, Value, Quad;
    var n := |pre| - 1;
    JoinStart(Pieces(pre[..n], pre[n]));
  }

  /** The text with `::` is, behind a leading colon, the join of its pieces. */
  lemma GapTextBody(pre: seq<string>, post: Option<Pieces>)
    requires AreGroups(pre) && (post.Some? ==> IsTail(post.value))
    ensures var s := GapText(pre, post);
      !BadStart(s) && Body(s) == Join(GapPieces(pre, post), ':')
  {
    hide Quad, Value, Join, ColonJoin;
    var q := if post.None? then Pieces([], "") else post.value;
    JoinEmpty();
    assert post.None? ==> pre + [""] + [] == pre + [""];
    assert GapPieces(pre, post) == Pieces(pre + [""] + q.done, q.last);
    if pre == [] {
      ColonJoinEmpty();
      JoinGap(q);
      assert pre + [""] + q.done == [""] + q.done;
      assert GapText(pre, post) == "::" + Join(q, ':');
    } else {
      JoinAfter(pre, q);
      ColonJoinStart(pre);
    }
  }

  lemma GapPiecesSeparable(pre: seq<string>, post: Option<Pieces>)
    requires AreGroups(pre) && (post.Some? ==> IsTail(post.value))
    ensures Separable(GapPieces(pre, post), ':')
  {
    hide Quad, Value;
    forall k | 0 <= k < |pre| ensures ':' !in pre[k] {
      GroupPlain(pre[k]);
    }
    if post.Some? {
      TailSeparable(post.value);
    }
  }

  /** The compressed form: groups, `::`, groups (with an optional dotted quad) of at most
      sixteen bytes in all. Fewer than sixteen leave room for the zeros. */
  lemma ParseCompressed(pre: seq<string>, post: Option<Pieces>)
    requires AreGroups(pre) && (post.Some? ==> IsTail(post.value))
    ensures AreInner(pre)
    ensures var tail := if post.None? then [] else TailBytes(post.value);
      |InnerBytes(pre)| + |tail| <= 16 ==>
      Parse6(GapText(pre, post)) == Some(Expand(InnerBytes(pre) + tail, |InnerBytes(pre)|))
  {
    hide Quad, Value, InnerBytes, Expand, Split, Join, Body, BadStart, GapText, GapPieces;
    AssembleGap(pre, post);
    GapTextBody(pre, post);
    GapPiecesSeparable(pre, post);
    SplitJoin(GapPieces(pre, post), ':');
  }

  /** One colon too many at the end of a full address is accepted all the same. */
  lemma ParseTrailingColon(p: Pieces)
    requires IsTail(p) && IsGroup(p.last) && |TailBytes(p)| == 16
    ensures Parse6(Join(p, ':') + ":") == Some(TailBytes(p))
  {
    hide Quad, Value, InnerBytes, Join, Gaps, GapAt;
    var s := Join(p, ':');
    JoinStart(p);
    TailSeparable(p);
    SplitJoin(p, ':');
    SplitSnoc(s, ':', ':');
    NoGaps(p.done);
    GroupsInner(p.done);
    InnerSnoc(p.done, p.last);
    assert Body(s + ":") == s + [':'];
    assert TailBytes(p) + [] == TailBytes(p);
  }

  /** Likewise behind a compressed address, as in "1::2:". */
  lemma ParseGapTrailingColon(pre: seq<string>, post: Pieces)
    requires AreGroups(pre) && IsTail(post) && IsGroup(post.last)
    ensures AreInner(pre)
    ensures |InnerBytes(pre)| + |TailBytes(post)| <= 16 ==>
      Parse6(GapText(pre, Some(post)) + ":") == Some(Expand(InnerBytes(pre) + TailBytes(post), |InnerBytes(pre)|))
  {
    hide Quad, Value, InnerBytes, Expand, Split, Join, Gaps, GapAt, GapText, GapPieces, Separable;
    GroupsInner(pre);
    var s, h := GapText(pre, Some(post)), post.done + [post.last];
    GapTextBody(pre, Some(post));
    GapPiecesSeparable(pre, Some(post));
    SplitJoin(GapPieces(pre, Some(post)), ':');
    GapPiecesMore(pre, post);
    BodySnoc(s);
    SplitSnoc(Body(s), ':', ':');
    OneGap(pre, h);
    GroupsInner(post.done);
    InnerSnoc(post.done, post.last);
    assert InnerBytes(pre) + TailBytes(post) + [] == InnerBytes(pre) + TailBytes(post);
  }

  /** A colon at the end stays there when the leading one is dropped. */
  lemma BodySnoc(s: string)
    requires |s| > 1 && !BadStart(s)
    ensures Body(s + ":") == Body(s) + [':'] && !BadStart(s + ":")
  {
  }

  lemma GapPiecesMore(pre: seq<string>, post: Pieces)
    ensures var g := GapPieces(pre, Some(post)); g.done + [g.last] == pre + [""] + (post.done + [post.last])
    ensures |GapText(pre, Some(post))| > 1
  {
  }

  /** On every text with `::` and sixteen bytes around it the `::` is ignored, as notice
      (2) promises, if and only if all bytes behind it are zero. */
  lemma GapIgnoredExactly(pre: seq<string>, post: Option<Pieces>)
    requires AreGroups(pre) && (post.Some? ==> IsTail(post.value))
    ensures AreInner(pre)
    ensures var tail := if post.None? then [] else TailBytes(post.value);
      |InnerBytes(pre)| + |tail| == 16 ==>
      (Parse6(GapText(pre, post)) == Some(InnerBytes(pre) + tail) <==> forall k :: 0 <= k < |tail| ==> tail[k] == 0)
  {
    hide InnerBytes, TailBytes, Expand, Parse6, GapText, IsTail;
    ParseCompressed(pre, post);
    var tail := if post.None? then [] else TailBytes(post.value);
    var head := InnerBytes(pre);
    if |head| + |tail| == 16 {
      FullAddressGapIgnored(head + tail, |head|);
      BehindGap(head, tail);
    }
  }

  lemma BehindGap(head: seq<byte>, tail: seq<byte>)
    ensures (forall k :: |head| <= k < |head + tail| ==> (head + tail)[k] == 0) <==>
      forall k :: 0 <= k < |tail| ==> tail[k] == 0
  {
    if forall k :: |head| <= k < |head + tail| ==> (head + tail)[k] == 0 {
      forall k | 0 <= k < |tail| ensures tail[k] == 0 {
        assert tail[k] == (head + tail)[|head| + k];
      }
    }
  }

  function Ones(n: nat): (f: seq<string>)
    ensures |f| == n && forall k :: 0 <= k < n ==> f[k] == "1"
  {
    seq(n, _ => "1")
  }

  /** `1:1:1:1:1:1:1::1`: the code blanks the last word although all eight were given,
      where its notice (2) promises to ignore the `::`. */
  lemma GapInFullAddress()
    ensures var r := Parse6(ColonJoin(Ones(7)) + "::1");
      r.Some? && forall k :: 0 <= k < 16 ==> r.value[k] == if k % 2 == 1 && k < 14 then 1 else 0
  {
    hide Parse6, ColonJoin, Split;
    OneIsGroup();
    var p := Pieces([], "1");
    ParseCompressed(Ones(7), Some(p));
    assert Join(p, ':') == "1";
    assert GapText(Ones(7), Some(p)) == ColonJoin(Ones(7)) + "::1";
    RepeatedOnes(7);
    InnerBytesEmpty();
    assert TailBytes(p) == [0, 1];
  }

  lemma OneIsGroup()
    ensures IsGroup("1") && Value("1", Sixteen) == 1 && WordBytes(1) == [0, 1]
  {
    ValueEmpty(Sixteen);
    assert "1"[..0] == "";
  }

  lemma {:induction false} RepeatedOnes(n: nat)
    ensures var f := Ones(n);
      AreInner(f) && |InnerBytes(f)| == 2 * n && forall k :: 0 <= k < 2 * n ==> InnerBytes(f)[k] == k % 2
  {
    hide InnerBytes, Value, Gaps, GapAt;
    InnerBytesEmpty();
    if n > 0 {
      OneIsGroup();
      RepeatedOnes(n - 1);
      assert Ones(n) == Ones(n - 1) + ["1"];
      InnerSnoc(Ones(n - 1), "1");
    }
  }

  // ---------------------------------------------------------------------
  // Round trip
  // ---------------------------------------------------------------------

  /** The printed groups of words `lo` to `hi` read back as their bytes. */
  lemma {:induction false} GroupsBack(a: seq<byte>, lo: nat, hi: nat)
    requires |a| == 16 && lo <= hi <= 8
    ensures var f := Groups(Words(a))[lo..hi];
      AreGroups(f) && AreInner(f) && InnerBytes(f) == a[2 * lo..2 * hi]
    decreases hi
  {
    hide InnerBytes, Value, Words, Groups, Gaps, GapAt;
    var g := Groups(Words(a));
    if lo < hi {
      GroupsBack(a, lo, hi - 1);
      GroupBack(a, hi - 1);
      assert g[lo..hi] == g[lo..hi - 1] + [g[hi - 1]];
      InnerSnoc(g[lo..hi - 1], g[hi - 1]);
      assert a[2 * lo..2 * hi] == a[2 * lo..2 * (hi - 1)] + a[2 * (hi - 1)..2 * hi];
    } else {
      InnerBytesEmpty();
      assert g[lo..hi] == [] && a[2 * lo..2 * hi] == [];
    }
  }

  lemma GroupBack(a: seq<byte>, k: nat)
    requires |a| == 16 && k < 8
    ensures var t := Groups(Words(a))[k];
      IsGroup(t) && WordBytes(Value(t, Sixteen)) == a[2 * k..2 * k + 2]
  {
    hide Value;
    NumeralRoundTrip(Word(a, k), Sixteen);
    var high: int := a[2 * k];
    assert Word(a, k) / 256 == high && Word(a, k) % 256 == a[2 * k + 1];
  }

  /** Groups `lo` to 7 as a tail. */
  lemma TailBack(a: seq<byte>, lo: nat)
    requires |a| == 16 && lo < 8
    ensures var g := Groups(Words(a));
      var p := Pieces(g[lo..7], g[7]);
      IsTail(p) && TailBytes(p) == a[2 * lo..]
      && ColonJoin(g[lo..]) == Join(p, ':')
  {
    hide Value, Join;
    GroupsBack(a, lo, 7);
    GroupBack(a, 7);
    var g := Groups(Words(a));
    assert g[lo..][..|g[lo..]| - 1] == g[lo..7];
    assert a[2 * lo..14] + a[14..16] == a[2 * lo..];
  }

  lemma ZeroBytes(a: seq<byte>, b: nat, l: nat, k: nat)
    requires |a| == 16 && AllZero(Words(a), b, l) && 2 * b <= k < 2 * (b + l)
    ensures a[k] == 0
  {
    assert Words(a)[k / 2] == 0;
    assert Word(a, k / 2) == 0;
  }

  lemma ExpandBack(a: seq<byte>, b: nat, l: nat)
    requires |a| == 16 && AllZero(Words(a), b, l) && l >= 1
    ensures Expand(a[..2 * b] + a[2 * (b + l)..], 2 * b) == a
  {
    forall k | 2 * b <= k < 2 * (b + l) ensures a[k] == 0 {
      ZeroBytes(a, b, l, k);
    }
  }

  lemma RoundTripGroups(a: seq<byte>)
    requires |a| == 16 && !HoldsIPv4(Words(a), BestRun(Words(a)))
    ensures Parse6(Text6(a)) == Some(a)
  {
    hide BestRun, Parse6, Join, ColonJoin, Expand, InnerBytes, TailBytes, IsTail;
    var w := Words(a);
    var g, r := Groups(w), BestRun(w);
    BestRunIsBest(w);
    if r.base == -1 {
      TailBack(a, 0);
      assert g[0..] == g && a[0..] == a;
      ParseFull(Pieces(g[0..7], g[7]));
    } else {
      var b, e := r.base, r.base + r.len;
      GroupsBack(a, 0, b);
      assert g[0..b] == g[..b] && a[0..2 * b] == a[..2 * b];
      ExpandBack(a, b, r.len);
      if e == 8 {
        ParseCompressed(g[..b], None);
        assert g[8..] == [];
        ColonJoinEmpty();
        assert a[..2 * b] + [] == a[..2 * b] + a[2 * e..];
      } else {
        TailBack(a, e);
        ParseCompressed(g[..b], Some(Pieces(g[e..7], g[7])));
      }
    }
  }

  lemma RoundTripMixed(a: seq<byte>)
    requires |a| == 16 && HoldsIPv4(Words(a), BestRun(Words(a)))
    ensures Parse6(Text6(a)) == Some(a)
  {
    hide BestRun, Parse6, ColonJoin, Expand, Quad, Value, Dotted, InnerBytes, Words, Groups;
    var w := Words(a);
    var g, r := Groups(w), BestRun(w);
    BestRunIsBest(w);
    var quad := Dotted(a[12..]);
    DottedRoundTrip(a[12..]);
    NotGroup(quad);
    var done := g[r.len..6];
    GroupsBack(a, r.len, 6);
    var p := Pieces(done, quad);
    assert TailBytes(p) == a[2 * r.len..12] + a[12..] == a[2 * r.len..];
    ParseCompressed([], Some(p));
    ColonJoinEmpty();
    InnerBytesEmpty();
    ExpandBack(a, 0, r.len);
    assert [] + a[2 * r.len..] == a[..0] + a[2 * r.len..];
    if r.len == 6 {
      assert done == [];
      assert Join(p, ':') == quad;
    } else {
      assert done == [g[5]];
      JoinTwo(g[5], quad);
    }
    assert Text6(a) == GapText([], Some(p));
  }

  lemma JoinTwo(s: string, t: string)
    ensures Join(Pieces([s], t), ':') == s + ":" + t
  {
    assert [s][..0] == [];
  }

  lemma NotGroup(t: string)
    requires Quad(t).Some?
    ensures !IsGroup(t)
  {
    hide Value;
    if AllHexDigits(t) {
      assert '.' !in t by { assert !IsHexDigit('.'); }
      SplitPlain(t, '.');
    }
  }

  /** Parsing the text that `inet_ntop6` prints gives back every one of the 2^128 addresses. */
  lemma RoundTrip(a: seq<byte>)
    requires |a| == 16
    ensures Parse6(Text6(a)) == Some(a)
  {
    hide Parse6, Text6, BestRun;
    if HoldsIPv4(Words(a), BestRun(Words(a))) {
      RoundTripMixed(a);
    } else {
      RoundTripGroups(a);
    }
  }

  /** Different addresses print differently. */
  lemma PrinterInjective(a: seq<byte>, b: seq<byte>)
    requires |a| == 16 && |b| == 16 && Text6(a) == Text6(b)
    ensures a == b
  {
    hide Parse6, Text6;
    RoundTrip(a);
    RoundTrip(b);
  }

  /** Whatever `inet_pton6` accepts consists of hexadecimal digits, colons and dots. */
  lemma ParsedCharacters(s: string, k: nat)
    requires Parse6(s).Some? && k < |s|
    ensures IsHexDigit(s[k]) || s[k] == ':' || s[k] == '.'
  {
    hide Split, Value, InnerBytes, Gaps, GapAt, Quad, Finish;
    var t := Body(s);
    var j := k - (|s| - |t|);
    if j >= 0 && t[j] != ':' {
      SplitPrefix(t, j + 1, ':');
      SplitStep(t, j, ':');
      var p, q := Split(t[..j + 1], ':'), Split(t, ':');
      assert t[j] in p.last;
      var u := if |p.done| < |q.done| then q.done[|p.done|] else q.last;
      assert t[j] in u;
      if !AllHexDigits(u) {
        assert Quad(u).Some?;
        var i :| 0 <= i < |u| && u[i] == t[j];
        QuadCharacters(u, i);
      }
    }
  }

  /** `inet_pton` after `inet_ntop` on the caller's buffers: with 46 characters of room
      (INET6_ADDRSTRLEN) both calls succeed and the address comes back. */
  method NtopThenPton(a: seq<byte>) returns (b: seq<byte>)
    requires |a| == 16
    ensures b == a
  {
    hide Parse6, Text6;
    var text := new char[46];
    Text6Length(a);
    RoundTrip(a);
    var printed := InetNtop6(a, text, 46);
    var n := 0;
    while text[n] != '\0'
      invariant 0 <= n <= |Text6(a)|
      invariant '\0' !in text[..n]
      decreases |Text6(a)| - n
    {
      assert text[..][n] == (Text6(a) + ['\0'])[n];
      n := n + 1;
    }
    if n < |Text6(a)| {
      assert text[..][n] == Text6(a)[n];
      ParsedCharacters(Text6(a), n);
    }
    assert text[..n] == text[..][..n] == Text6(a);
    var out := new byte[16];
    var parsed := InetPton6(text[..n], out);
    return out[..];
  }
}

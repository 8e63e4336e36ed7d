/** All texts that `inet_pton6` (libfree/inet_pton.c) accepts: those of section 2.2 of
    RFC 1884, some of them with a colon more at the end. */
module Inet6Forms {
  import opened Wrappers
  import opened CText
  import opened Inet4
  import opened Inet6Parse
  import opened Inet6Print
  import opened Inet6RoundTrip

  /** A text by its parts: without `::`, or with groups before and after it; `colon` says
      whether a single colon follows. */
  datatype Form =
    | Full(p: Pieces, colon: bool)
    | Gapped(pre: seq<string>, post: Option<Pieces>, colon: bool)

  function Head(pre: seq<string>): seq<byte>
    requires AreGroups(pre)
  {
    GroupsInner(pre);
    InnerBytes(pre)
  }

  function Behind(post: Option<Pieces>): seq<byte>
    requires post.Some? ==> IsTail(post.value)
  {
    if post.None? then [] else TailBytes(post.value)
  }

  /** Sixteen bytes without a `::`, at most sixteen with it; a colon at the end only
      behind a group. */
  predicate WellFormed(f: Form) {
    match f
    case Full(p, colon) => IsTail(p) && |TailBytes(p)| == 16 && (colon ==> IsGroup(p.last))
    case Gapped(pre, post, colon) =>
      && AreGroups(pre) && (post.Some? ==> IsTail(post.value)) && (colon ==> post.Some? && IsGroup(post.value.last))
      && |Head(pre)| + |Behind(post)| <= 16
  }

  function Text(f: Form): string {
    (match f
     case Full(p, _) => Join(p, ':')
     case Gapped(pre, post, _) => GapText(pre, post)) + if f.colon then ":" else ""
  }

  /** The bytes as they are written, from left to right. */
  function Written(f: Form): seq<byte>
    requires WellFormed(f)
  {
    match f
    case Full(p, _) => TailBytes(p)
    case Gapped(pre, post, _) => Head(pre) + Behind(post)
  }

  function Address(f: Form): seq<byte>
    requires WellFormed(f)
  {
    match f
    case Full(p, _) => TailBytes(p)
    case Gapped(pre, post, _) => Expand(Head(pre) + Behind(post), |Head(pre)|)
  }

  // ---------------------------------------------------------------------
  // Each form is accepted
  // ---------------------------------------------------------------------

  lemma FormParses(f: Form)
    requires WellFormed(f)
    ensures Parse6(Text(f)) == Some(Address(f))
  {
    hide Parse6, Join, GapText, InnerBytes, Expand, IsTail, TailBytes;
    match f
    case Full(p, colon) =>
      assert Text(f) == Join(p, ':') + if colon then ":" else "";
      if colon {
        ParseTrailingColon(p);
      } else {
        ParseFull(p);
        assert Join(p, ':') + "" == Join(p, ':');
      }
    case Gapped(pre, post, colon) =>
      assert Text(f) == GapText(pre, post) + if colon then ":" else "";
      if colon {
        ParseGapTrailingColon(pre, post.value);
      } else {
        ParseCompressed(pre, post);
        assert GapText(pre, post) + "" == GapText(pre, post);
      }
  }

  // ---------------------------------------------------------------------
  // Nothing else is
  // ---------------------------------------------------------------------

  lemma {:induction false} JoinSplit(s: string, sep: char)
    ensures Join(Split(s, sep), sep) == s
  {
    hide Split, Join, Grow;
    if s == "" {
      JoinNothing(sep);
    } else {
      var t, c := s[..|s| - 1], s[|s| - 1];
      JoinSplit(t, sep);
      assert s == t + [c];
      SplitSnoc(t, c, sep);
      JoinGrow(Split(t, sep), c, sep);
    }
  }

  lemma JoinNothing(sep: char)
    ensures Join(Split("", sep), sep) == ""
  {
  }

  lemma JoinGrow(p: Pieces, c: char, sep: char)
    ensures Join(Grow(p, c, sep), sep) == Join(p, sep) + [c]
  {
    if c == sep {
      var n := |p.done|;
      assert (p.done + [p.last])[..n] == p.done;
    }
  }

  lemma {:induction false} AllGroups(f: seq<string>)
    requires AreInner(f) && Gaps(f) == 0
    ensures AreGroups(f)
  {
    if f != [] {
      AllGroups(f[..|f| - 1]);
    }
  }

  /** One empty piece among groups. */
  lemma {:induction false} AroundGap(f: seq<string>) returns (pre: seq<string>, h: seq<string>)
    requires AreInner(f) && Gaps(f) == 1
    ensures AreGroups(pre) && AreGroups(h) && f == pre + [""] + h
  {
    hide Value;
    var n := |f| - 1;
    if f[n] == "" {
      AllGroups(f[..n]);
      pre, h := f[..n], [];
    } else {
      pre, h := AroundGap(f[..n]);
      h := h + [f[n]];
      assert f == f[..n] + [f[n]];
    }
  }

  /** A text is determined by what is left after a leading colon has been dropped. */
  lemma BodyInjective(s: string, t: string)
    requires !BadStart(s) && !BadStart(t) && Body(s) == Body(t)
    ensures s == t
  {
    if s != "" && s[0] == ':' {
      assert s == [':'] + Body(s);
      assert t == [':'] + Body(t);
    }
  }

  lemma FullBody(p: Pieces, colon: bool)
    requires IsTail(p)
    ensures var t := Text(Full(p, colon)); !BadStart(t) && Body(t) == t
  {
    hide IsTail, Join;
    JoinStart(p);
  }

  lemma GappedBody(pre: seq<string>, post: Option<Pieces>, colon: bool)
    requires AreGroups(pre) && (post.Some? ==> IsTail(post.value)) && (colon ==> post.Some?)
    ensures var t := Text(Gapped(pre, post, colon));
      !BadStart(t) && Body(t) == Join(GapPieces(pre, post), ':') + if colon then ":" else ""
  {
    hide IsTail, Join, GapPieces, GapText, Body, BadStart;
    GapTextBody(pre, post);
    var g := GapText(pre, post);
    if colon {
      GapPiecesMore(pre, post.value);
      BodySnoc(g);
    } else {
      assert g + "" == g;
    }
  }

  /** The pieces end in an empty one. */
  lemma JoinClosed(q: Pieces)
    ensures Join(Pieces(q.done + [q.last], ""), ':') == Join(q, ':') + ":"
  {
    assert (q.done + [q.last])[..|q.done|] == q.done;
  }

  lemma FullForm(p: Pieces) returns (f: Form)
    requires Assemble(p).Some? && Gaps(p.done) == 0
    ensures WellFormed(f) && !BadStart(Text(f)) && Body(Text(f)) == Join(p, ':')
  {
    hide Value, Join, InnerBytes, Quad;
    AllGroups(p.done);
    if p.last == "" {
      assert p.done != [] by { InnerBytesEmpty(); }
      var n := |p.done| - 1;
      var q := Pieces(p.done[..n], p.done[n]);
      GroupsInner(q.done);
      InnerSnoc(q.done, q.last);
      assert q.done + [q.last] == p.done;
      JoinClosed(q);
      FullBody(q, true);
      assert InnerBytes(p.done) + [] == InnerBytes(p.done);
      f := Full(q, true);
    } else {
      TailLast(p);
      FullBody(p, false);
      assert Join(p, ':') + "" == Join(p, ':');
      f := Full(p, false);
    }
  }

  lemma GappedForm(p: Pieces) returns (f: Form)
    requires Assemble(p).Some? && Gaps(p.done) == 1
    ensures WellFormed(f) && !BadStart(Text(f)) && Body(Text(f)) == Join(p, ':')
  {
    hide Value, Join, InnerBytes, Quad, Gaps, GapAt, Body, BadStart, Text;
    var pre, h := AroundGap(p.done);
    OneGap(pre, h);
    if p.last == "" && h == [] {
      assert pre + [""] + [] == pre + [""];
      GappedBody(pre, None, false);
      assert Join(p, ':') + "" == Join(p, ':');
      f := Gapped(pre, None, false);
    } else if p.last == "" {
      var m := |h| - 1;
      var q := Pieces(h[..m], h[m]);
      assert h == q.done + [q.last];
      GroupsInner(q.done);
      InnerSnoc(q.done, q.last);
      GapPiecesMore(pre, q);
      JoinClosed(GapPieces(pre, Some(q)));
      GappedBody(pre, Some(q), true);
      f := Gapped(pre, Some(q), true);
    } else {
      var q := Pieces(h, p.last);
      TailLast(q);
      GappedBody(pre, Some(q), false);
      assert Join(p, ':') + "" == Join(p, ':');
      f := Gapped(pre, Some(q), false);
    }
  }

  /** `inet_pton6` accepts exactly the texts of these forms, and gives each its address. */
  lemma AcceptedForms(s: string)
    ensures Parse6(s).Some? <==> exists f :: WellFormed(f) && Text(f) == s
  {
    hide Assemble, Split, Join, Gaps, Body, BadStart, Text, WellFormed, Address;
    if Parse6(s).Some? {
      var p := Split(Body(s), ':');
      JoinSplit(Body(s), ':');
      AtMostOneGap(p);
      var f: Form;
      if Gaps(p.done) == 0 {
        f := FullForm(p);
      } else {
        f := GappedForm(p);
      }
      BodyInjective(s, Text(f));
    }
    if f :| WellFormed(f) && Text(f) == s {
      FormParses(f);
    }
  }

  lemma AtMostOneGap(p: Pieces)
    requires Assemble(p).Some?
    ensures Gaps(p.done) <= 1
  {
    hide Gaps, InnerBytes;
  }

  /** Notice (2), for every accepted text with sixteen bytes: they are its address, as if a
      `::` were not there, if and only if those behind the `::` are all zero. */
  lemma NoticeExactly(f: Form)
    requires WellFormed(f) && |Written(f)| == 16
    ensures Parse6(Text(f)) == Some(Written(f)) <==>
      f.Full? || forall k :: 0 <= k < |Behind(f.post)| ==> Behind(f.post)[k] == 0
  {
    hide Parse6, Text, Expand, InnerBytes, TailBytes, IsTail;
    FormParses(f);
    if f.Gapped? {
      FullAddressGapIgnored(Written(f), |Head(f.pre)|);
      BehindGap(Head(f.pre), Behind(f.post));
    }
  }

  /** Where the bytes of an address go: those before the `::` to the front and those behind
      it to the end, with zeros between; if there is no room for zeros, those behind are
      lost. */
  lemma AddressIs(f: Form)
    requires WellFormed(f) && f.Gapped?
    ensures var a, m, n := Address(f), |Head(f.pre)|, |Behind(f.post)|;
      && |a| == 16 && a[..m] == Head(f.pre)
      && (m + n < 16 ==> a[16 - n..] == Behind(f.post) && forall k :: m <= k < 16 - n ==> a[k] == 0)
      && (m + n == 16 ==> forall k :: m <= k < 16 ==> a[k] == 0)
  {
    hide InnerBytes, TailBytes, IsTail;
    var h, b := Head(f.pre), Behind(f.post);
    assert (h + b)[..|h|] == h && (h + b)[|h|..] == b;
  }

  lemma {:induction false} ZeroInFront(t: string, b: Base)
    ensures Value("0" + t, b) == Value(t, b)
  {
    if t == "" {
      assert "0" + t == "" + "0";
      ValueSnoc("", '0', b);
    } else {
      var u, c := t[..|t| - 1], t[|t| - 1];
      ZeroInFront(u, b);
      assert "0" + t == ("0" + u) + [c] && t == u + [c];
      ValueSnoc("0" + u, c, b);
      ValueSnoc(u, c, b);
    }
  }

  /** A group may have any number of leading zeros. */
  lemma LeadingZeros(t: string)
    requires t != ""
    ensures IsGroup("0" + t) <==> IsGroup(t)
    ensures LastBytes("0" + t) == LastBytes(t) || !IsGroup(t)
  {
    hide Value, Quad;
    ZeroInFront(t, Sixteen);
    assert forall c :: c in "0" + t <==> c == '0' || c in t;
  }

  /** Each group is two bytes, the high one first. */
  lemma {:induction false} GroupBytes(f: seq<string>)
    requires AreGroups(f)
    ensures |Head(f)| == 2 * |f|
    ensures forall k :: 0 <= k < |f| ==>
      var high: int := Head(f)[2 * k];
      high * 256 + Head(f)[2 * k + 1] == Value(f[k], Sixteen)
  {
    hide Value;
    if f != [] {
      var n := |f| - 1;
      GroupBytes(f[..n]);
      GroupsInner(f);
      GroupsInner(f[..n]);
      assert IsGroup(f[n]);
      var v := Value(f[n], Sixteen);
      assert Head(f) == Head(f[..n]) + [v / 256, v % 256];
    }
  }
}

/** IPv6 text to bytes: `inet_pton6` (libfree/inet_pton.c). */
module Inet6Parse {
  import opened Wrappers
  import opened CText
  import opened Inet4

  /** One to sixteen bits in hexadecimal; leading zeros are not limited. */
  predicate IsGroup(t: string) {
    t != "" && AllHexDigits(t) && Value(t, Sixteen) <= 0xffff
  }

  function WordBytes(v: nat): (b: seq<byte>)
    requires v <= 0xffff
    ensures |b| == 2
  {
    [v / 256, v % 256]
  }

  /** A piece that may stand in front of a colon; the empty one comes from `::`. */
  predicate IsInner(t: string) {
    t == "" || IsGroup(t)
  }

  predicate AreInner(f: seq<string>) {
    forall k :: 0 <= k < |f| ==> IsInner(f[k])
  }

  /** The bytes of the groups among `f`, in order. */
  function InnerBytes(f: seq<string>): (b: seq<byte>)
    requires AreInner(f)
  {
    if f == [] then []
    else
      var t := f[|f| - 1];
      InnerBytes(f[..|f| - 1]) + if t == "" then [] else WordBytes(Value(t, Sixteen))
  }

  /** How many pieces of `f` are empty. */
  function Gaps(f: seq<string>): nat {
    if f == [] then 0 else Gaps(f[..|f| - 1]) + if f[|f| - 1] == "" then 1 else 0
  }

  /** How many bytes precede the last empty piece. */
  function GapAt(f: seq<string>): (c: Option<nat>)
    requires AreInner(f)
    ensures c.Some? <==> Gaps(f) > 0
    ensures c.Some? ==> c.value <= |InnerBytes(f)|
  {
    if f == [] then None
    else if f[|f| - 1] == "" then Some(|InnerBytes(f[..|f| - 1])|)
    else GapAt(f[..|f| - 1])
  }

  /** The last piece is empty (after a colon), a group, or a dotted quad. */
  function LastBytes(t: string): (b: Option<seq<byte>>)
  {
    if t == "" then Some([])
    else if IsGroup(t) then Some(WordBytes(Value(t, Sixteen)))
    else Quad(t)
  }

  /** Sixteen bytes from the ones read, of which those from `c` on move to the end.
      When all sixteen are there already, the code blanks the ones behind the gap. */
  function Expand(bytes: seq<byte>, c: nat): (r: seq<byte>)
    requires c <= |bytes| <= 16
    ensures |r| == 16
  {
    if |bytes| < 16 then bytes[..c] + Zeros(16 - |bytes|) + bytes[c..]
    else bytes[..c] + Zeros(16 - c)
  }

  function Finish(bytes: seq<byte>, c: Option<nat>): (r: Option<seq<byte>>)
    requires |bytes| <= 16 && (c.Some? ==> c.value <= |bytes|)
    ensures r.Some? ==> |r.value| == 16
  {
    match c
    case None => if |bytes| == 16 then Some(bytes) else None
    case Some(k) => Some(Expand(bytes, k))
  }

  /** The address denoted by the pieces between colons. */
  function Assemble(p: Pieces): (r: Option<seq<byte>>)
    ensures r.Some? ==> |r.value| == 16
  {
    var last := LastBytes(p.last);
    if AreInner(p.done) && Gaps(p.done) <= 1 && last.Some? && |InnerBytes(p.done) + last.value| <= 16 then
      Finish(InnerBytes(p.done) + last.value, GapAt(p.done))
    else
      None
  }

  predicate BadStart(s: string) {
    s != "" && s[0] == ':' && !(|s| > 1 && s[1] == ':')
  }

  /** A leading `::` counts as one colon behind an empty piece. */
  function Body(s: string): string {
    if s != "" && s[0] == ':' then s[1..] else s
  }

  /** The texts that `inet_pton6` accepts and the sixteen bytes it stores for them. */
  function Parse6(s: string): (r: Option<seq<byte>>)
    ensures r.Some? ==> |r.value| == 16
  {
    if BadStart(s) then None else Assemble(Split(Body(s), ':'))
  }

  // ---------------------------------------------------------------------
  // The hand-written shift
  // ---------------------------------------------------------------------

  /** Lines 205-217: moves the bytes read behind the gap to the end of `tmp`, in place. */
  method SlideToEnd(tmp: array<byte>, tp: nat, colonp: nat)
    requires tmp.Length == 16 && colonp <= tp <= 16
    requires tmp[tp..] == Zeros(16 - tp)
    modifies tmp
    ensures tmp[..] == Expand(old(tmp[..tp]), colonp)
  {
    var n := tp - colonp;
    ghost var was, gap := tmp[..], 16 - tp;
    var i := 1;
    while i <= n
      invariant 1 <= i <= n + 1
      invariant forall k :: 0 <= k < tp - i + 1 ==> tmp[k] == was[k]
      invariant forall k :: 16 - i + 1 <= k < 16 ==> tmp[k] == if gap > 0 then was[k - gap] else 0
      invariant forall k :: tp - i + 1 <= k < 16 - i + 1 ==> tmp[k] == 0
    {
      tmp[16 - i] := tmp[colonp + n - i];
      tmp[colonp + n - i] := 0;
      i := i + 1;
    }
    assert forall k :: 0 <= k < 16 ==> tmp[k] == Expand(was[..tp], colonp)[k];
  }

  /** A `::` in an already full address is ignored, as the source's own notice says,
      exactly when every byte behind it is zero anyway. */
  lemma FullAddressGapIgnored(bytes: seq<byte>, c: nat)
    requires |bytes| == 16 && c <= 16
    ensures Expand(bytes, c) == bytes <==> forall k :: c <= k < 16 ==> bytes[k] == 0
  {
    var r := Expand(bytes, c);
    if forall k :: c <= k < 16 ==> bytes[k] == 0 {
      assert forall k :: 0 <= k < 16 ==> r[k] == bytes[k];
    } else {
      var k :| c <= k < 16 && bytes[k] != 0;
      assert r[k] == 0;
    }
  }

  // ---------------------------------------------------------------------
  // The scan
  // ---------------------------------------------------------------------

  lemma {:induction false} InnerPrefix(f: seq<string>, g: seq<string>)
    requires f <= g && AreInner(g)
    ensures AreInner(f) && Gaps(f) <= Gaps(g) && |InnerBytes(f)| <= |InnerBytes(g)|
    decreases |g|
  {
    if f != g {
      InnerPrefix(f, g[..|g| - 1]);
    }
  }

  /** Text in front of which no continuation makes an acceptable piece. */
  ghost predicate Dead(t: string) {
    || (exists c :: c in t && !IsHexDigit(c) && c != '.')
    || (AllHexDigits(t) && Value(t, Sixteen) > 0xffff)
  }

  lemma DeadStays(t: string, u: string)
    requires t <= u && Dead(t)
    ensures !IsInner(u) && LastBytes(u) == None
  {
    hide Split, Value;
    if c :| c in t && !IsHexDigit(c) && c != '.' {
      assert c in u;
      if Quad(u).Some? {
        var k :| 0 <= k < |u| && u[k] == c;
        QuadCharacters(u, k);
      }
    } else {
      ValueEmpty(Sixteen);
      if AllHexDigits(u) {
        ValuePrefix(t, u, Sixteen);
      }
      if Quad(u).Some? {
        QuadStart(t, u);
      }
    }
  }

  /** Hexadecimal digits at the start of a dotted quad are worth less than 0x10000. */
  lemma QuadStart(t: string, u: string)
    requires t <= u && Quad(u).Some? && AllHexDigits(t)
    ensures Value(t, Sixteen) <= 0xffff
  {
    hide Split, Value;
    forall c | c in t ensures IsDigit(c) {
      var k :| 0 <= k < |t| && t[k] == c;
      QuadCharacters(u, k);
    }
    SplitPlain(t, '.');
    SplitPrefix(u, |t|, '.');
    assert u[..|t|] == t;
    ValuePrefix(t, Split(u, '.').done[0], Ten);
    OctetReadInHex(t);
  }

  /** Why `inet_pton6` may give up in the middle of the string. */
  lemma ParseFailsEarly(s: string, i: nat)
    requires i <= |s|
    requires var p := Split(s[..i], ':');
      Dead(p.last) || !AreInner(p.done) || Gaps(p.done) > 1 || |InnerBytes(p.done)| > 16
    ensures Assemble(Split(s, ':')) == None
  {
    hide Split, InnerBytes, Gaps, Value, LastBytes, GapAt;
    var p, q := Split(s[..i], ':'), Split(s, ':');
    SplitPrefix(s, i, ':');
    if Dead(p.last) {
      DeadStays(p.last, if |p.done| < |q.done| then q.done[|p.done|] else q.last);
    } else if AreInner(q.done) {
      InnerPrefix(p.done, q.done);
    }
  }

  /** The bytes stored so far are those of the pieces `inner`. */
  ghost predicate Stored(inner: seq<string>, tmp: seq<byte>, tp: nat, colonp: Option<nat>) {
    && AreInner(inner) && Gaps(inner) <= 1 && colonp == GapAt(inner)
    && tp == |InnerBytes(inner)| <= 16
    && |tmp| == 16 && tmp[..tp] == InnerBytes(inner) && tmp[tp..] == Zeros(16 - tp)
  }

  lemma StoreGap(inner: seq<string>, tmp: seq<byte>, tp: nat)
    requires Stored(inner, tmp, tp, None)
    ensures Stored(inner + [""], tmp, tp, Some(tp))
  {
    assert (inner + [""])[..|inner|] == inner;
    assert InnerBytes(inner) + [] == InnerBytes(inner);
  }

  lemma StoreGroup(inner: seq<string>, t: string, tmp: seq<byte>, tp: nat, colonp: Option<nat>)
    requires Stored(inner, tmp, tp, colonp) && IsGroup(t)
    ensures AreInner(inner + [t]) && InnerBytes(inner + [t]) == InnerBytes(inner) + WordBytes(Value(t, Sixteen))
    ensures tp + 2 <= 16 ==>
      var v := Value(t, Sixteen);
      Stored(inner + [t], tmp[tp := v / 256][tp + 1 := v % 256], tp + 2, colonp)
  {
    assert (inner + [t])[..|inner|] == inner;
    if tp + 2 <= 16 {
      var v := Value(t, Sixteen);
      var r := tmp[tp := v / 256][tp + 1 := v % 256];
      assert r[..tp + 2] == tmp[..tp] + WordBytes(v);
      assert r[tp + 2..] == tmp[tp..][2..];
      assert Zeros(16 - tp)[2..] == Zeros(16 - (tp + 2));
    }
  }

  /** What the locals of `inet_pton6` say about the first `i` characters of `s`. */
  ghost predicate ScanTo(s: string, i: nat, tmp: seq<byte>, tp: nat, colonp: Option<nat>,
                         curtok: nat, sawXdigit: bool, val: nat)
  {
    && i <= |s|
    && var p := Split(s[..i], ':');
    && Stored(p.done, tmp, tp, colonp)
    && AllHexDigits(p.last) && val == Value(p.last, Sixteen) <= 0xffff
    && (sawXdigit <==> p.last != "")
    && curtok + |p.last| == i
  }

  lemma ScanStart(s: string)
    ensures ScanTo(s, 0, Zeros(16), 0, None, 0, false, 0)
  {
    assert Split(s[..0], ':') == Pieces([], "");
    assert [] + Zeros(16) == Zeros(16);
  }

  lemma ScanHexDigit(s: string, i: nat, tmp: seq<byte>, tp: nat, colonp: Option<nat>,
                     curtok: nat, sawXdigit: bool, val: nat)
    requires ScanTo(s, i, tmp, tp, colonp, curtok, sawXdigit, val)
    requires i < |s| && IsHexDigit(s[i])
    ensures var v := val * 16 + DigitValue(s[i]);
      if v <= 0xffff then ScanTo(s, i + 1, tmp, tp, colonp, curtok, true, v)
      else Assemble(Split(s, ':')) == None
  {
    hide Split, Stored, Assemble, Value;
    SplitStep(s, i, ':');
    ValueSnoc(Split(s[..i], ':').last, s[i], Sixteen);
    if val * 16 + DigitValue(s[i]) > 0xffff {
      ParseFailsEarly(s, i + 1);
    }
  }

  lemma ScanGap(s: string, i: nat, tmp: seq<byte>, tp: nat, colonp: Option<nat>, curtok: nat, val: nat)
    requires ScanTo(s, i, tmp, tp, colonp, curtok, false, val)
    requires i < |s| && s[i] == ':'
    ensures if colonp.Some? then Assemble(Split(s, ':')) == None
      else ScanTo(s, i + 1, tmp, tp, Some(tp), i + 1, false, val)
  {
    hide Split, Assemble, InnerBytes;
    var p := Split(s[..i], ':');
    SplitStep(s, i, ':');
    if colonp.Some? {
      assert (p.done + [""])[..|p.done|] == p.done;
      ParseFailsEarly(s, i + 1);
    } else {
      StoreGap(p.done, tmp, tp);
    }
  }

  lemma ScanGroup(s: string, i: nat, tmp: seq<byte>, tp: nat, colonp: Option<nat>, curtok: nat, val: nat)
    requires ScanTo(s, i, tmp, tp, colonp, curtok, true, val)
    requires i < |s| && s[i] == ':'
    ensures tp <= |tmp| - 2 || tp == 16
    ensures if tp + 2 > 16 then Assemble(Split(s, ':')) == None
      else ScanTo(s, i + 1, tmp[tp := val / 256][tp + 1 := val % 256], tp + 2, colonp, i + 1, false, 0)
  {
    hide Split, Assemble, Gaps, GapAt;
    ValueEmpty(Sixteen);
    var p := Split(s[..i], ':');
    SplitStep(s, i, ':');
    StoreGroup(p.done, p.last, tmp, tp, colonp);
    InnerEven(p.done);
    if tp + 2 > 16 {
      ParseFailsEarly(s, i + 1);
    }
  }

  lemma {:induction false} InnerEven(f: seq<string>)
    requires AreInner(f)
    ensures |InnerBytes(f)| % 2 == 0
  {
    if f != [] {
      InnerEven(f[..|f| - 1]);
    }
  }

  lemma ColonInPiece(rest: string)
    ensures if ':' in rest then Quad(rest) == None && Split(rest, ':').done != []
            else Split(rest, ':') == Pieces([], rest)
  {
    if ':' in rest {
      var k :| 0 <= k < |rest| && rest[k] == ':';
      if Quad(rest).Some? {
        QuadCharacters(rest, k);
      }
      SplitPieces(rest, ':');
    } else {
      SplitPlain(rest, ':');
    }
  }

  /** The current piece, completed to the end of the string. */
  lemma PieceWithDot(s: string, i: nat, curtok: nat)
    requires i < |s| && s[i] == '.'
    requires curtok + |Split(s[..i], ':').last| == i
    ensures var p, q := Split(s[..i], ':'), Split(s, ':');
      var rest := s[curtok..];
      '.' in rest
      && if ':' in rest then |p.done| < |q.done| && '.' in q.done[|p.done|] && Quad(rest) == None
         else q == Pieces(p.done, rest)
  {
    hide Split, Quad;
    var rest := s[curtok..];
    SplitFromPiece(s, i, curtok, ':');
    assert rest[i - curtok] == '.';
    SplitStep(s, i, ':');
    SplitPrefix(s, i + 1, ':');
    assert '.' in Split(s[..i + 1], ':').last;
    ColonInPiece(rest);
  }

  lemma DotNotHex(t: string)
    requires '.' in t
    ensures !AllHexDigits(t) && !IsInner(t)
  {
    hide Value;
    assert !IsHexDigit('.');
  }

  lemma AssembleQuad(inner: seq<string>, t: string, tmp: seq<byte>, tp: nat, colonp: Option<nat>)
    requires Stored(inner, tmp, tp, colonp) && '.' in t
    ensures Assemble(Pieces(inner, t)) ==
      if tp + 4 <= 16 && Quad(t).Some? then Finish(tmp[..tp] + Quad(t).value, colonp) else None
  {
    hide Quad, Finish;
    DotNotHex(t);
  }

  /** A dot is acceptable exactly when the rest of the string is a dotted quad that fits. */
  lemma ScanDot(s: string, i: nat, tmp: seq<byte>, tp: nat, colonp: Option<nat>,
                curtok: nat, sawXdigit: bool, val: nat)
    requires ScanTo(s, i, tmp, tp, colonp, curtok, sawXdigit, val)
    requires i < |s| && s[i] == '.'
    ensures if tp + 4 <= 16 && Quad(s[curtok..]).Some?
      then Assemble(Split(s, ':')) == Finish(tmp[..tp] + Quad(s[curtok..]).value, colonp)
      else Assemble(Split(s, ':')) == None
  {
    PieceWithDot(s, i, curtok);
    var p, q, rest := Split(s[..i], ':'), Split(s, ':'), s[curtok..];
    if ':' in rest {
      DotNotHex(q.done[|p.done|]);
    } else {
      AssembleQuad(p.done, rest, tmp, tp, colonp);
    }
  }

  lemma ScanBounds(s: string, i: nat, tmp: seq<byte>, tp: nat, colonp: Option<nat>,
                   curtok: nat, sawXdigit: bool, val: nat)
    requires ScanTo(s, i, tmp, tp, colonp, curtok, sawXdigit, val)
    ensures curtok <= |s| && |tmp| == 16 && tp <= 16 && tmp[tp..] == Zeros(16 - tp)
    ensures val <= 0xffff && (colonp.Some? ==> colonp.value <= tp)
  {
  }

  lemma ScanOther(s: string, i: nat, tmp: seq<byte>, tp: nat, colonp: Option<nat>,
                  curtok: nat, sawXdigit: bool, val: nat)
    requires ScanTo(s, i, tmp, tp, colonp, curtok, sawXdigit, val)
    requires i < |s| && !IsHexDigit(s[i]) && s[i] != ':' && s[i] != '.'
    ensures Assemble(Split(s, ':')) == None
  {
    hide Split, Assemble, Stored, Value;
    SplitStep(s, i, ':');
    assert s[i] in Split(s[..i + 1], ':').last;
    ParseFailsEarly(s, i + 1);
  }

  /** The bytes left in `tmp` and the pending group decide the outcome. */
  ghost predicate ScanDone(s: string, tmp: seq<byte>, tp: nat, colonp: Option<nat>, sawXdigit: bool, val: nat) {
    && tp <= 16 && (colonp.Some? ==> colonp.value <= tp)
    && |tmp| == 16 && tmp[tp..] == Zeros(16 - tp) && val <= 0xffff
    && Assemble(Split(s, ':')) ==
      if !sawXdigit then Finish(tmp[..tp], colonp)
      else if tp + 2 > 16 then None
      else Finish(tmp[..tp] + WordBytes(val), colonp)
  }

  lemma ScanEnd(s: string, tmp: seq<byte>, tp: nat, colonp: Option<nat>,
                curtok: nat, sawXdigit: bool, val: nat)
    requires ScanTo(s, |s|, tmp, tp, colonp, curtok, sawXdigit, val)
    ensures ScanDone(s, tmp, tp, colonp, sawXdigit, val)
  {
    assert s[..|s|] == s;
    assert tmp[..tp] + [] == tmp[..tp];
  }

  lemma ScanEndQuad(s: string, before: seq<byte>, after: seq<byte>, tp: nat, colonp: Option<nat>,
                    quad: seq<byte>, val: nat)
    requires tp + 4 <= 16 && |before| == 16 && before[tp..] == Zeros(16 - tp) && |quad| == 4 && val <= 0xffff
    requires colonp.Some? ==> colonp.value <= tp
    requires Assemble(Split(s, ':')) == Finish(before[..tp] + quad, colonp)
    requires after == before[..tp] + quad + before[tp + 4..]
    ensures ScanDone(s, after, tp + 4, colonp, false, val)
  {
    assert after[..tp + 4] == before[..tp] + quad;
    assert after[tp + 4..] == before[tp..][4..] == Zeros(16 - tp)[4..] == Zeros(16 - (tp + 4));
  }

  lemma ScanEndGroup(s: string, tmp: seq<byte>, tp: nat, colonp: Option<nat>, val: nat)
    requires ScanDone(s, tmp, tp, colonp, true, val) && tp + 2 <= 16
    ensures ScanDone(s, tmp[tp := val / 256][tp + 1 := val % 256], tp + 2, colonp, false, val)
  {
    var r := tmp[tp := val / 256][tp + 1 := val % 256];
    assert r[..tp + 2] == tmp[..tp] + WordBytes(val);
    assert r[tp + 2..] == tmp[tp..][2..] == Zeros(16 - tp)[2..] == Zeros(16 - (tp + 2));
  }

  /** Lines 199-223, behind the loop: the pending group, the shift and the copy. */
  method StoreResult(ghost s: string, tmp: array<byte>, tp: nat, colonp: Option<nat>, sawXdigit: bool,
                     val: nat, dst: array<byte>) returns (ok: bool)
    requires ScanDone(s, tmp[..], tp, colonp, sawXdigit, val)
    requires tmp != dst && tmp.Length == 16 && dst.Length >= 16
    modifies tmp, dst
    ensures var r := Assemble(Split(s, ':'));
      ok == r.Some? && dst[..] == if ok then r.value + old(dst[16..]) else old(dst[..])
  {
    var end := tp;
    if sawXdigit {
      if end + 2 > 16 {
        return false;
      }
      ScanEndGroup(s, tmp[..], tp, colonp, val);
      ghost var before: seq<byte> := tmp[..];
      tmp[end], tmp[end + 1] := val / 256, val % 256;
      assert tmp[..] == before[tp := (val / 256) as byte][tp + 1 := (val % 256) as byte];
      end := end + 2;
    }
    assert Assemble(Split(s, ':')) == Finish(tmp[..end], colonp);
    if colonp.Some? {
      SlideToEnd(tmp, end, colonp.value);
      end := 16;
    }
    if end != 16 {
      return false;
    }
    MemCopy(dst, 0, tmp[..]);
    return true;
  }

  /** Lines 168-169: `val <<= 4; val |= (pch - xdigits)`. */
  method PutDigit(val: nat, ch: char) returns (v: nat)
    ensures v == val * 16 + DigitValue(ch)
  {
    hide ShiftLeft, Or;
    ShiftByFour(val);
    ShiftByFour(1);
    OrAdds(val, DigitValue(ch), 4);
    v := ShiftLeft(val, 4);
    v := Or(v, DigitValue(ch));
  }

  /** Stores sixteen bytes at `dst` and returns true (the source's 1) for exactly the
      texts that `Parse6` describes; otherwise nothing is touched. */
  method InetPton6(src: CString, dst: array<byte>) returns (ok: bool)
    requires dst.Length >= 16
    modifies dst
    ensures ok == Parse6(src).Some?
    ensures ok ==> dst[..] == Parse6(src).value + old(dst[16..])
    ensures !ok ==> dst[..] == old(dst[..])
  {
    hide ScanTo, ScanDone, Assemble, Split;
    var tmp := new byte[16](_ => 0);
    var tp, endp := 0, 16;
    var colonp: Option<nat> := None;
    var s := src;
    if s != "" && s[0] == ':' {
      s := s[1..];
      if s == "" || s[0] != ':' {
        return false;
      }
    }
    var curtok, sawXdigit := 0, false;
    var val: nat := 0;
    ScanStart(s);
    assert tmp[..] == Zeros(16);
    var i := 0;
    while i < |s|
      invariant 0 <= i <= |s| && fresh(tmp) && dst[..] == old(dst[..])
      invariant ScanTo(s, i, tmp[..], tp, colonp, curtok, sawXdigit, val)
    {
      var ch := s[i];
      ghost var before: seq<byte> := tmp[..];
      if IsHexDigit(ch) {
        ScanHexDigit(s, i, before, tp, colonp, curtok, sawXdigit, val);
        val := PutDigit(val, ch);
        if val > 0xffff {
          return false;
        }
        sawXdigit := true;
        i := i + 1;
        continue;
      }
      if ch == ':' {
        ghost var tok := curtok;
        curtok := i + 1;
        if !sawXdigit {
          ScanGap(s, i, before, tp, colonp, tok, val);
          if colonp.Some? {
            return false;
          }
          colonp := Some(tp);
          i := i + 1;
          continue;
        }
        ScanGroup(s, i, before, tp, colonp, tok, val);
        if tp + 2 > endp {
          return false;
        }
        tmp[tp], tmp[tp + 1] := val / 256, val % 256;
        assert tmp[..] == before[tp := (val / 256) as byte][tp + 1 := (val % 256) as byte];
        tp := tp + 2;
        sawXdigit, val := false, 0;
        i := i + 1;
        continue;
      }
      if ch == '.' {
        ScanBounds(s, i, before, tp, colonp, curtok, sawXdigit, val);
        ScanDot(s, i, before, tp, colonp, curtok, sawXdigit, val);
        if tp + 4 <= endp {
          var quad := InetPton4(s[curtok..], tmp, tp);
          if quad {
            ScanEndQuad(s, before, tmp[..], tp, colonp, Quad(s[curtok..]).value, val);
            tp := tp + 4;
            sawXdigit := false;
            break;   // the rest of the string was seen by inet_pton4
          }
        }
      } else {
        ScanOther(s, i, before, tp, colonp, curtok, sawXdigit, val);
      }
      return false;
    }
    if i == |s| {
      ScanEnd(s, tmp[..], tp, colonp, curtok, sawXdigit, val);
    }
    assert ScanDone(s, tmp[..], tp, colonp, sawXdigit, val);
    ok := StoreResult(s, tmp, tp, colonp, sawXdigit, val, dst);
  }
}

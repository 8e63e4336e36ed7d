/** Dotted-quad IPv4 text: `inet_pton4` (libfree/inet_pton.c), `inet_ntop4`
    (libfree/inet_ntop.c) and `inet_aton` (libfree/inet_aton.c). */
module Inet4 {
  import opened Wrappers
  import opened CText

  /** One piece of a dotted quad: a nonempty decimal digit run worth at most 255. */
  predicate IsOctet(t: string) {
    t != "" && AllDigits(t) && Value(t, Ten) <= 255
  }

  predicate AreOctets(p: Pieces) {
    |p.done| == 3 && IsOctet(p.done[0]) && IsOctet(p.done[1]) && IsOctet(p.done[2]) && IsOctet(p.last)
  }

  function OctetBytes(p: Pieces): (b: seq<byte>)
    requires AreOctets(p)
    ensures |b| == 4
  {
    [Value(p.done[0], Ten), Value(p.done[1], Ten), Value(p.done[2], Ten), Value(p.last, Ten)]
  }

  /** The four bytes denoted by `s` when it is four octets separated by single dots. */
  function Quad(s: string): (r: Option<seq<byte>>)
    ensures r.Some? ==> |r.value| == 4
  {
    var p := Split(s, '.');
    if AreOctets(p) then Some(OctetBytes(p)) else None
  }

  function Octets(b: seq<byte>): Pieces
    requires |b| == 4
  {
    Pieces([Numeral(b[0], Ten), Numeral(b[1], Ten), Numeral(b[2], Ten)], Numeral(b[3], Ten))
  }

  /** The text "%u.%u.%u.%u" printed for four bytes. */
  function Dotted(b: seq<byte>): string
    requires |b| == 4
  {
    Join(Octets(b), '.')
  }

  /** A piece of a string that cannot be completed to an octet. */
  ghost predicate Hopeless(t: string) {
    !AllDigits(t) || Value(t, Ten) > 255
  }

  lemma HopelessStays(t: string, u: string)
    requires t <= u && Hopeless(t)
    ensures !IsOctet(u)
  {
    if AllDigits(u) {
      assert forall c :: c in t ==> c in u;
      ValuePrefix(t, u, Ten);
    }
  }

  /** Why `inet_pton4` may give up in the middle of the string. */
  lemma QuadFailsEarly(s: string, i: nat)
    requires i <= |s|
    requires var p := Split(s[..i], '.');
      |p.done| > 3 || Hopeless(p.last) || (exists k :: 0 <= k < |p.done| && p.done[k] == "")
    ensures Quad(s) == None
  {
    hide Split, Value;
    var p, q := Split(s[..i], '.'), Split(s, '.');
    SplitPrefix(s, i, '.');
    if Hopeless(p.last) {
      HopelessStays(p.last, if |p.done| < |q.done| then q.done[|p.done|] else q.last);
    } else if k :| 0 <= k < |p.done| && p.done[k] == "" {
      assert q.done[k] == "";
    }
  }

  /** What the locals of `inet_pton4` say about the pieces `p` read so far. */
  ghost predicate Reading(p: Pieces, tmp: seq<byte>, tp: nat, sawDigit: bool, octets: int) {
    && |tmp| == 4 && tp < 4 && |p.done| == tp
    && (forall k :: 0 <= k < tp ==> IsOctet(p.done[k]) && tmp[k] == Value(p.done[k], Ten))
    && AllDigits(p.last) && Value(p.last, Ten) == tmp[tp]
    && (sawDigit <==> p.last != "")
    && octets == tp + (if sawDigit then 1 else 0)
  }

  /** The same for the first `i` characters of the string. */
  ghost predicate ReadTo(s: string, i: nat, tmp: seq<byte>, tp: nat, sawDigit: bool, octets: int)
    requires i <= |s|
  {
    Reading(Split(s[..i], '.'), tmp, tp, sawDigit, octets)
  }

  lemma ReadStart(s: string, tmp: seq<byte>)
    requires |tmp| == 4 && tmp[0] == 0
    ensures ReadTo(s, 0, tmp, 0, false, 0)
  {
    assert Split(s[..0], '.') == Pieces([], "");
  }

  lemma ReadDigit(s: string, i: nat, tmp: seq<byte>, tp: nat, sawDigit: bool, octets: int)
    requires i < |s| && ReadTo(s, i, tmp, tp, sawDigit, octets) && IsDigit(s[i])
    ensures tp < |tmp| && octets <= 4 && (!sawDigit ==> octets < 4)
    ensures var next: int := tmp[tp] * 10 + DigitValue(s[i]);
      if next <= 255 then ReadTo(s, i + 1, tmp[tp := next], tp, true, tp + 1) else Quad(s) == None
  {
    hide Split, Quad, Value;
    SplitStep(s, i, '.');
    ValueSnoc(Split(s[..i], '.').last, s[i], Ten);
    if tmp[tp] * 10 + DigitValue(s[i]) > 255 {
      QuadFailsEarly(s, i + 1);
    }
  }

  lemma ReadDot(s: string, i: nat, tmp: seq<byte>, tp: nat, octets: int)
    requires i < |s| && ReadTo(s, i, tmp, tp, true, octets) && s[i] == '.'
    ensures octets >= 4 ==> Quad(s) == None
    ensures octets < 4 ==> tp + 1 < |tmp| && ReadTo(s, i + 1, tmp[tp + 1 := 0], tp + 1, false, octets)
  {
    hide Split, Quad;
    SplitStep(s, i, '.');
    if octets >= 4 {
      QuadFailsEarly(s, i + 1);
    }
  }

  lemma ReadOther(s: string, i: nat, tmp: seq<byte>, tp: nat, sawDigit: bool, octets: int)
    requires i < |s| && ReadTo(s, i, tmp, tp, sawDigit, octets)
    requires !IsDigit(s[i]) && !(s[i] == '.' && sawDigit)
    ensures Quad(s) == None
  {
    hide Split, Quad, Value;
    SplitStep(s, i, '.');
    var p := Split(s[..i + 1], '.');
    if s[i] == '.' {
      assert p.done[|p.done| - 1] == "";
    } else {
      assert s[i] in p.last;
    }
    QuadFailsEarly(s, i + 1);
  }

  lemma ReadAll(s: string, tmp: seq<byte>, tp: nat, sawDigit: bool, octets: int)
    requires ReadTo(s, |s|, tmp, tp, sawDigit, octets)
    ensures Quad(s) == if octets < 4 then None else Some(tmp)
  {
    assert s[..|s|] == s;
    if octets >= 4 {
      assert OctetBytes(Split(s, '.')) == tmp;
    }
  }

  /** `memcpy(dst + off, bytes, |bytes|)`. */
  method MemCopy(dst: array<byte>, off: nat, bytes: seq<byte>)
    requires off + |bytes| <= dst.Length
    modifies dst
    ensures dst[..] == old(dst[..off]) + bytes + old(dst[off + |bytes|..])
  {
    forall k | 0 <= k < |bytes| { dst[off + k] := bytes[k]; }
  }

  /** Writes the address at `dst[off..]` and returns true (the source's 1) exactly
      for the texts that `Quad` describes; otherwise nothing is touched. */
  method InetPton4(src: CString, dst: array<byte>, off: nat) returns (ok: bool)
    requires off + 4 <= dst.Length
    modifies dst
    ensures ok == Quad(src).Some?
    ensures ok ==> dst[..] == old(dst[..off]) + Quad(src).value + old(dst[off + 4..])
    ensures !ok ==> dst[..] == old(dst[..])
  {
    hide Split, Value, Quad;
    var sawDigit, octets := false, 0;
    var tmp := new byte[4];
    var tp := 0;
    tmp[tp] := 0;
    var i := 0;
    ReadStart(src, tmp[..]);
    while i < |src|
      invariant 0 <= i <= |src|
      invariant ReadTo(src, i, tmp[..], tp, sawDigit, octets)
      invariant dst[..] == old(dst[..])
    {
      var ch := src[i];
      ghost var before := tmp[..];
      if IsDigit(ch) {
        ReadDigit(src, i, before, tp, sawDigit, octets);
        var next: int := tmp[tp] * 10 + DigitValue(ch);
        if next > 255 {
          return false;
        }
        tmp[tp] := next;
        assert tmp[..] == before[tp := tmp[tp]];
        if !sawDigit {
          octets := octets + 1;
          if octets > 4 {
            return false;
          }
          sawDigit := true;
        }
      } else if ch == '.' && sawDigit {
        ReadDot(src, i, before, tp, octets);
        if octets == 4 {
          return false;
        }
        tp := tp + 1;
        tmp[tp] := 0;
        assert tmp[..] == before[tp := 0];
        sawDigit := false;
      } else {
        ReadOther(src, i, before, tp, sawDigit, octets);
        return false;
      }
      i := i + 1;
    }
    ReadAll(src, tmp[..], tp, sawDigit, octets);
    if octets < 4 {
      return false;
    }
    MemCopy(dst, off, tmp[..]);
    return true;
  }

  // ---------------------------------------------------------------------
  // Printing
  // ---------------------------------------------------------------------

  /** `sprintf(tp, "%s", s)`: the characters and the terminating NUL. */
  method SPrint(buf: array<char>, tp: nat, s: string)
    requires tp + |s| < buf.Length
    modifies buf
    ensures buf[..] == old(buf[..tp]) + s + ['\0'] + old(buf[tp + |s| + 1..])
  {
    forall k | 0 <= k < |s| { buf[tp + k] := s[k]; }
    buf[tp + |s|] := '\0';
  }

  /** The four numerals with the dots between them. */
  lemma DottedIs(b: seq<byte>)
    requires |b| == 4
    ensures Dotted(b) ==
      Numeral(b[0], Ten) + "." + Numeral(b[1], Ten) + "." + Numeral(b[2], Ten) + "." + Numeral(b[3], Ten)
  {
    hide Numeral;
    var p := Octets(b);
    var n := p.done;
    assert n[..2] == [n[0], n[1]] && n[..2][..1] == [n[0]] && n[..1][..0] == [];
    assert Join(Pieces([], n[0]), '.') == n[0];
    assert Join(Pieces(n[..1], n[1]), '.') == n[0] + "." + n[1];
    assert Join(Pieces(n[..2], n[2]), '.') == n[0] + "." + n[1] + "." + n[2];
  }

  lemma DottedLength(b: seq<byte>)
    requires |b| == 4
    ensures 7 <= |Dotted(b)| <= 15
  {
    hide Dotted, Numeral;
    forall k | 0 <= k < 4 ensures 1 <= |Numeral(b[k], Ten)| <= 3 {
      NumeralLength(b[k], Ten, 2);
    }
    DottedIs(b);
  }

  /** How many characters `inet_ntop4` stores in a buffer of `size`: the text and its NUL,
      or nothing. The source compares `size` with the length of the text alone. */
  function Ntop4Stores(src: seq<byte>, size: nat): nat
    requires |src| == 4
  {
    if |Dotted(src)| <= size then |Dotted(src)| + 1 else 0
  }

  /** They stay within `size` if and only if the text is not exactly that long. */
  lemma Ntop4StaysWithin(src: seq<byte>, size: nat)
    requires |src| == 4
    ensures Ntop4Stores(src, size) <= size <==> |Dotted(src)| != size
  {
  }

  /** For instance 1.2.3.4 in a buffer of seven: the NUL is the eighth character. */
  lemma Ntop4GoesBeyond()
    ensures Dotted([1, 2, 3, 4]) == "1.2.3.4" && Ntop4Stores([1, 2, 3, 4], 7) == 8
  {
    hide Join;
    DottedIs([1, 2, 3, 4]);
    NumeralDigit(1);
    NumeralDigit(2);
    NumeralDigit(3);
    NumeralDigit(4);
  }

  /** A size is safe for every address if and only if no text has that length: below 7
      nothing is ever printed, and above 15 there is always room. */
  lemma SizeIsSafe(size: nat)
    ensures (forall src: seq<byte> :: |src| == 4 ==> Ntop4Stores(src, size) <= size) <==> size < 7 || size > 15
  {
    hide Ntop4Stores, Dotted;
    if 7 <= size <= 15 {
      var src := Sized(size - 7);
      SizedLength(size - 7);
      Ntop4StaysWithin(src, size);
    } else {
      forall src: seq<byte> | |src| == 4 ensures Ntop4Stores(src, size) <= size {
        DottedLength(src);
        Ntop4StaysWithin(src, size);
      }
    }
  }

  /** A number whose numeral has one digit, and up to two more. */
  function Long(more: int): byte {
    if more <= 0 then 1 else if more == 1 then 10 else 100
  }

  /** An address whose text has `more` characters beyond seven. */
  function Sized(more: nat): seq<byte> {
    [Long(more), Long(more - 2), Long(more - 4), Long(more - 6)]
  }

  lemma LongLength(more: int)
    ensures |Numeral(Long(more), Ten)| == if more <= 0 then 1 else if more == 1 then 2 else 3
  {
    assert Numeral(1, Ten) == "1";
    assert Numeral(10, Ten) == "10";
    assert Numeral(100, Ten) == "100";
  }

  lemma SizedLength(more: nat)
    requires more <= 8
    ensures |Dotted(Sized(more))| == 7 + more
  {
    hide Numeral, Dotted;
    DottedIs(Sized(more));
    LongLength(more);
    LongLength(more - 2);
    LongLength(more - 4);
    LongLength(more - 6);
  }

  lemma NumeralDigit(d: nat)
    requires d < 10
    ensures Numeral(d, Ten) == ['0' + d as char]
  {
  }

  /** `strcpy(dst + off, s)`: what lies behind the array is not modelled, only that the NUL
      is stored there. */
  method StrCpy(dst: array<char>, off: nat, s: string) returns (stored: nat)
    requires off + |s| <= dst.Length
    modifies dst
    ensures stored == |s| + 1
    ensures dst[..off + |s|] == old(dst[..off]) + s
    ensures off + |s| < dst.Length ==> dst[off + |s|] == '\0' && dst[off + |s| + 1..] == old(dst[off + |s| + 1..])
  {
    forall k | 0 <= k < |s| { dst[off + k] := s[k]; }
    if off + |s| < dst.Length {
      dst[off + |s|] := '\0';
    }
    stored := |s| + 1;
  }

  /** Prints at `dst[off..]`, where the caller has `size` characters, unless the text (its
      NUL not counted, as in the source) is longer than that. */
  method InetNtop4(src: seq<byte>, dst: array<char>, off: nat, size: nat) returns (ok: bool, stored: nat)
    requires |src| == 4 && off + size <= dst.Length
    modifies dst
    ensures ok == (|Dotted(src)| <= size) && stored == Ntop4Stores(src, size)
    ensures stored <= size <==> |Dotted(src)| != size
    ensures ok ==> dst[..off + |Dotted(src)|] == old(dst[..off]) + Dotted(src)
    ensures ok && off + |Dotted(src)| < dst.Length ==>
      dst[off + |Dotted(src)|] == '\0' && dst[off + |Dotted(src)| + 1..] == old(dst[off + |Dotted(src)| + 1..])
    ensures !ok ==> dst[..] == old(dst[..])
  {
    hide Dotted;
    var tmp := new char[16];   // sizeof "255.255.255.255"
    DottedLength(src);
    var text := Dotted(src);
    SPrint(tmp, 0, text);
    if |text| > size {
      return false, 0;
    }
    stored := StrCpy(dst, off, text);
    return true, stored;
  }

  /** `inet_pton4` inverts `inet_ntop4`. */
  lemma DottedRoundTrip(b: seq<byte>)
    requires |b| == 4
    ensures Quad(Dotted(b)) == Some(b)
  {
    hide Split, Join, Value, Numeral;
    var p := Octets(b);
    forall k | 0 <= k < 4
      ensures var n := Numeral(b[k], Ten); '.' !in n && IsOctet(n) && Value(n, Ten) == b[k]
    {
      NumeralRoundTrip(b[k], Ten);
    }
    SplitJoin(p, '.');
    assert OctetBytes(p) == b;
  }

  /** A dotted quad consists of digits and dots only. */
  lemma QuadCharacters(s: string, k: nat)
    requires Quad(s).Some? && k < |s|
    ensures IsDigit(s[k]) || s[k] == '.'
  {
    hide Split, Value;
    SplitPrefix(s, k + 1, '.');
    SplitStep(s, k, '.');
    var p, q := Split(s[..k + 1], '.'), Split(s, '.');
    if s[k] != '.' {
      assert s[k] in p.last;
      assert s[k] in if |p.done| < |q.done| then q.done[|p.done|] else q.last;
    }
  }

  // ---------------------------------------------------------------------
  // inet_aton
  // ---------------------------------------------------------------------

  /** Modulus of `u_long` on the 64-bit host that the repository was configured for. */
  const U_LONG: nat := 0x1_0000_0000_0000_0000

  /** The number that the accumulator of `inet_aton` holds after the digits `t`. */
  function Wrapped(t: string): nat {
    Value(t, Ten) % U_LONG
  }

  lemma WrappedSnoc(t: string, c: char)
    ensures Wrapped(t + [c]) == (Wrapped(t) * 10 + DigitValue(c)) % U_LONG
  {
    ValueSnoc(t, c, Ten);
    var v, d := Value(t, Ten), DigitValue(c);
    var q, r := v / U_LONG, v % U_LONG;
    assert v * 10 + d == 10 * q * U_LONG + (r * 10 + d);
    WrapMultiple(r * 10 + d, 10 * q);
  }

  lemma {:induction false} WrapMultiple(r: nat, q: nat)
    ensures (q * U_LONG + r) % U_LONG == r % U_LONG
  {
    if q > 0 {
      WrapMultiple(r, q - 1);
      var x := (q - 1) * U_LONG + r;
      assert q * U_LONG + r == x + U_LONG;
    }
  }

  predicate AtonPiece(t: string) {
    AllDigits(t) && Wrapped(t) <= 255
  }

  /** The bytes of finished pieces. */
  function PieceBytes(f: seq<string>): (b: seq<byte>)
    requires forall k :: 0 <= k < |f| ==> AtonPiece(f[k])
    ensures |b| == |f|
  {
    if f == [] then [] else assert AtonPiece(f[|f| - 1]); PieceBytes(f[..|f| - 1]) + [Wrapped(f[|f| - 1]) as byte]
  }

  /** The number whose big-endian bytes are `b`. */
  function BigEndian(b: seq<byte>): nat {
    if b == [] then 0 else BigEndian(b[..|b| - 1]) * 256 + b[|b| - 1]
  }

  function Zeros(n: nat): (z: seq<byte>)
    ensures |z| == n && forall k :: 0 <= k < n ==> z[k] == 0
  {
    seq(n, _ => 0)
  }

  predicate AreAtonPieces(p: Pieces) {
    |p.done| <= 3 && (forall k :: 0 <= k < |p.done| ==> AtonPiece(p.done[k])) && AtonPiece(p.last)
  }

  /** Up to four pieces, empty ones and short forms included; missing bytes are zero. */
  function AtonSpec(s: string): (r: Option<seq<byte>>)
    ensures r.Some? ==> |r.value| == 4
  {
    var p := Split(s, '.');
    if AreAtonPieces(p) then Some(PieceBytes(p.done) + [Wrapped(p.last) as byte] + Zeros(3 - |p.done|)) else None
  }

  lemma AtonFailsEarly(s: string, i: nat)
    requires i <= |s|
    requires var p := Split(s[..i], '.');
      |p.done| > 3 || !AllDigits(p.last) || (exists k :: 0 <= k < |p.done| && !AtonPiece(p.done[k]))
    ensures AtonSpec(s) == None
  {
    hide Split, PieceBytes;
    var p, q := Split(s[..i], '.'), Split(s, '.');
    SplitPrefix(s, i, '.');
    if !AllDigits(p.last) {
      var c :| c in p.last && !IsDigit(c);
      assert c in if |p.done| < |q.done| then q.done[|p.done|] else q.last;
    } else if k :| 0 <= k < |p.done| && !AtonPiece(p.done[k]) {
      assert !AtonPiece(q.done[k]);
    }
  }

  lemma {:induction false} BigEndianShift(b: seq<byte>, n: nat)
    requires |b| + n <= 4
    ensures BigEndian(b + Zeros(n)) == BigEndian(b) * [1, 0x100, 0x1_0000, 0x100_0000, 0x1_0000_0000][n]
  {
    if n == 0 {
      assert b + Zeros(0) == b;
    } else {
      BigEndianShift(b, n - 1);
      assert (b + Zeros(n))[..|b| + n - 1] == b + Zeros(n - 1);
    }
  }

  /** What the locals of `inet_aton` say about the pieces `p` read so far. */
  ghost predicate Summing(p: Pieces, dots: nat, acc: nat, addr: nat) {
    && |p.done| == dots <= 3
    && AllDigits(p.last) && acc == Wrapped(p.last)
    && (forall k :: 0 <= k < dots ==> AtonPiece(p.done[k]))
    && addr == BigEndian(PieceBytes(p.done))
  }

  /** The state at the head of round `i`; the last round has digested the NUL. */
  ghost predicate Round(s: string, i: nat, dots: nat, acc: nat, addr: nat) {
    if i <= |s| then
      Summing(Split(s[..i], '.'), dots, acc, addr)
    else
      var p := Split(s, '.');
      |p.done| == dots && AreAtonPieces(p) && addr == BigEndian(PieceBytes(p.done) + [Wrapped(p.last) as byte])
  }

  lemma RoundStart(s: string)
    ensures Round(s, 0, 0, 0, 0)
  {
    assert Split(s[..0], '.') == Pieces([], "");
  }

  lemma DigitRound(s: string, i: nat, dots: nat, acc: nat, addr: nat)
    requires i < |s| && Round(s, i, dots, acc, addr) && IsDigit(s[i])
    ensures Round(s, i + 1, dots, (acc * 10 + DigitValue(s[i])) % U_LONG, addr)
  {
    hide Split, BigEndian, PieceBytes, Wrapped;
    SplitStep(s, i, '.');
    WrappedSnoc(Split(s[..i], '.').last, s[i]);
  }

  lemma BigEndianSnoc(b: seq<byte>, x: byte)
    ensures BigEndian(b + [x]) == BigEndian(b) * 256 + x
  {
    assert (b + [x])[..|b|] == b;
  }

  lemma DotRound(s: string, i: nat, dots: nat, acc: nat, addr: nat)
    requires i < |s| && Round(s, i, dots, acc, addr) && s[i] == '.'
    ensures if dots < 3 && acc <= 255 then Round(s, i + 1, dots + 1, 0, addr * 256 + acc) else AtonSpec(s) == None
  {
    hide Split, BigEndian, Value, AtonSpec;
    var p := Split(s[..i], '.');
    SplitStep(s, i, '.');
    if dots < 3 && acc <= 255 {
      assert (p.done + [p.last])[..dots] == p.done;
      BigEndianSnoc(PieceBytes(p.done), acc);
      assert Wrapped("") == 0 by { assert Value("", Ten) == 0 by { ValueEmpty(Ten); } }
    } else {
      assert !AtonPiece(p.last) || dots == 3;
      assert acc > 255 ==> !AtonPiece(Grow(p, '.', '.').done[dots]);
      AtonFailsEarly(s, i + 1);
    }
  }

  lemma NulRound(s: string, dots: nat, acc: nat, addr: nat)
    requires Round(s, |s|, dots, acc, addr)
    ensures if acc <= 255 then Round(s, |s| + 1, dots, 0, addr * 256 + acc) else AtonSpec(s) == None
  {
    hide Split, BigEndian, PieceBytes, Wrapped;
    assert s[..|s|] == s;
    if acc <= 255 {
      BigEndianSnoc(PieceBytes(Split(s, '.').done), acc);
    }
  }

  lemma OtherRound(s: string, i: nat, dots: nat, acc: nat, addr: nat)
    requires i < |s| && Round(s, i, dots, acc, addr) && !IsDigit(s[i]) && s[i] != '.'
    ensures AtonSpec(s) == None
  {
    hide Split, BigEndian, PieceBytes, Wrapped, AtonSpec;
    SplitStep(s, i, '.');
    assert s[i] in Split(s[..i + 1], '.').last;
    AtonFailsEarly(s, i + 1);
  }

  lemma LastRound(s: string, dots: nat, acc: nat, addr: nat)
    requires Round(s, |s| + 1, dots, acc, addr)
    ensures dots <= 3 && AtonSpec(s).Some?
    ensures BigEndian(AtonSpec(s).value) == addr * [1, 0x100, 0x1_0000, 0x100_0000][3 - dots]
  {
    hide Split, BigEndian, PieceBytes, Wrapped;
    var p := Split(s, '.');
    BigEndianShift(PieceBytes(p.done) + [Wrapped(p.last) as byte], 3 - dots);
  }

  /** The address (host order) of exactly the strings that `AtonSpec` describes. */
  method InetAton(cp: CString) returns (ok: bool, addr: nat)
    ensures ok == AtonSpec(cp).Some?
    ensures ok ==> addr == BigEndian(AtonSpec(cp).value)
  {
    hide Round, AtonSpec, BigEndian;
    var dots: nat, acc: nat := 0, 0;
    addr := 0;
    var i := 0;
    RoundStart(cp);
    // one round per character and one more for the terminating NUL
    while i <= |cp|
      invariant 0 <= i <= |cp| + 1
      invariant Round(cp, i, dots, acc, addr)
    {
      var cc := if i < |cp| then cp[i] else '\0';
      assert i < |cp| ==> cc in cp;
      if IsDigit(cc) {
        DigitRound(cp, i, dots, acc, addr);
        acc := (acc * 10 + DigitValue(cc)) % U_LONG;
      } else if cc == '.' || cc == '\0' {
        if cc == '.' {
          DotRound(cp, i, dots, acc, addr);
          dots := dots + 1;
          if dots > 3 {
            return false, 0;
          }
        } else {
          NulRound(cp, dots, acc, addr);
        }
        if acc > 255 {
          return false, 0;
        }
        addr := addr * 256 + acc;
        acc := 0;
      } else {
        OtherRound(cp, i, dots, acc, addr);
        return false, 0;
      }
      i := i + 1;
    }
    LastRound(cp, dots, acc, addr);
    if dots < 3 {
      addr := addr * [1, 0x100, 0x1_0000, 0x100_0000][3 - dots];
    }
    return true, addr;
  }

  /** Everything `inet_pton4` accepts is accepted by `inet_aton`, with the same address... */
  lemma AtonAgreesWithPton4(s: string)
    requires Quad(s).Some?
    ensures AtonSpec(s) == Quad(s)
  {
    hide Split, Value, PieceBytes;
    var f := Split(s, '.').done;
    forall k | 0 <= k < 3 ensures AtonPiece(f[k]) && Wrapped(f[k]) == Value(f[k], Ten) {
      assert IsOctet(f[k]);
    }
    PieceBytesAre(f);
    assert AtonSpec(s).value == Quad(s).value;
  }

  /** ...while of the strings `inet_aton` accepts, `inet_pton4` accepts exactly those with
      four pieces, none empty and none large enough to wrap a `u_long` around. */
  lemma AtonAcceptsMore(s: string)
    requires AtonSpec(s).Some?
    ensures Quad(s).Some? <==>
      var p := Split(s, '.');
      |p.done| == 3 && forall t :: t in p.done + [p.last] ==> t != "" && Value(t, Ten) < U_LONG
  {
    hide Split, Value, PieceBytes;
    var p := Split(s, '.');
    var f := p.done + [p.last];
    if |p.done| == 3 && forall t :: t in f ==> t != "" && Value(t, Ten) < U_LONG {
      forall k | 0 <= k < 4 ensures IsOctet(f[k]) {
        assert f[k] in f && AtonPiece(f[k]);
      }
      assert IsOctet(f[0]) && IsOctet(f[1]) && IsOctet(f[2]) && IsOctet(f[3]);
    }
  }

  /** What up to four numbers denote: one byte each, from the left, and zeros. */
  lemma AtonNumbers(p: Pieces)
    requires |p.done| <= 3 && forall t :: t in p.done + [p.last] ==> AllDigits(t) && Value(t, Ten) <= 255
    ensures var r := AtonSpec(Join(p, '.'));
      && r.Some? && forall k :: 0 <= k < 4 ==>
           r.value[k] == if k <= |p.done| then Value((p.done + [p.last])[k], Ten) else 0
  {
    hide Split, Join, Value;
    var f := p.done + [p.last];
    forall k | 0 <= k < |f| ensures AllDigits(f[k]) && Value(f[k], Ten) <= 255 && '.' !in f[k] {
      assert f[k] in f;
      assert !IsDigit('.');
    }
    assert f[|p.done|] == p.last;
    forall k | 0 <= k < |p.done| ensures AtonPiece(p.done[k]) && '.' !in p.done[k] {
      assert p.done[k] == f[k];
    }
    SplitJoin(p, '.');
    PieceBytesAre(p.done);
  }

  lemma {:induction false} PieceBytesAre(f: seq<string>)
    requires forall k :: 0 <= k < |f| ==> AtonPiece(f[k])
    ensures forall k :: 0 <= k < |f| ==> PieceBytes(f)[k] == Wrapped(f[k])
  {
    if f != [] {
      PieceBytesAre(f[..|f| - 1]);
    }
  }
}

/** Bytes, C strings and the little bits of text handling that the address
    conversion routines rely on: splitting at a separator, joining, and the
    positional value of a run of digits. */
module CText {

  type byte = x: int | 0 <= x < 256

  /** What a `char *` argument points at, without its terminating NUL. */
  type CString = s: string | '\0' !in s

  // ---------------------------------------------------------------------
  // The bitwise or of the source's unsigned integers
  // ---------------------------------------------------------------------

  /** `a | b`, bit by bit. */
  function Or(a: nat, b: nat): nat {
    if a == 0 && b == 0 then 0
    else 2 * Or(a / 2, b / 2) + if a % 2 == 1 || b % 2 == 1 then 1 else 0
  }

  /** `a << k` */
  function ShiftLeft(a: nat, k: nat): nat {
    if k == 0 then a else 2 * ShiftLeft(a, k - 1)
  }

  lemma {:induction false} OrZero(a: nat)
    ensures Or(a, 0) == Or(0, a) == a
  {
    if a > 0 {
      OrZero(a / 2);
    }
  }

  /** Bits put in where the shift has left zeros are added. */
  lemma {:induction false} OrAdds(a: nat, b: nat, k: nat)
    requires b < ShiftLeft(1, k)
    ensures Or(ShiftLeft(a, k), b) == ShiftLeft(a, k) + b
    decreases k
  {
    if k == 0 {
      OrZero(a);
    } else {
      OrAdds(a, b / 2, k - 1);
      if ShiftLeft(a, k) != 0 || b != 0 {
        assert ShiftLeft(a, k) / 2 == ShiftLeft(a, k - 1);
      }
    }
  }

  lemma ShiftByTwo(a: nat, k: nat)
    ensures ShiftLeft(a, k + 2) == ShiftLeft(a, k) * 4
  {
    assert ShiftLeft(a, k + 1) == ShiftLeft(a, k) * 2;
  }

  lemma ShiftByFour(a: nat)
    ensures ShiftLeft(a, 4) == a * 16
  {
    ShiftByTwo(a, 2);
    ShiftByTwo(a, 0);
  }

  lemma ShiftByEight(a: nat)
    ensures ShiftLeft(a, 8) == a * 256
  {
    ShiftByTwo(a, 6);
    ShiftByTwo(a, 4);
    ShiftByFour(a);
  }

  predicate IsDigit(c: char) {
    '0' <= c <= '9'
  }

  predicate IsHexDigit(c: char) {
    IsDigit(c) || 'a' <= c <= 'f' || 'A' <= c <= 'F'
  }

  /** Index of `c` in "0123456789abcdef" or "0123456789ABCDEF". */
  function DigitValue(c: char): (v: nat)
    ensures v < 16
    ensures IsDigit(c) ==> v < 10
  {
    if IsDigit(c) then c as int - '0' as int
    else if 'a' <= c <= 'f' then c as int - 'a' as int + 10
    else if 'A' <= c <= 'F' then c as int - 'A' as int + 10
    else 0
  }

  predicate AllDigits(s: string) {
    forall c :: c in s ==> IsDigit(c)
  }

  predicate AllHexDigits(s: string) {
    forall c :: c in s ==> IsHexDigit(c)
  }

  datatype Base = Ten | Sixteen

  /** `v` moved one position to the left. */
  function Shift(v: nat, b: Base): (r: nat)
    ensures r >= v
  {
    match b
    case Ten => v * 10
    case Sixteen => v * 16
  }

  /** The number that the digits `s` denote. */
  function Value(s: string, b: Base): nat {
    if s == "" then 0 else Shift(Value(s[..|s| - 1], b), b) + DigitValue(s[|s| - 1])
  }

  lemma ValueSnoc(s: string, c: char, b: Base)
    ensures Value(s + [c], b) == Shift(Value(s, b), b) + DigitValue(c)
  {
    assert (s + [c])[..|s|] == s;
  }

  lemma ValueEmpty(b: Base)
    ensures Value("", b) == 0
  {
  }

  /** Reading further digits never makes the number smaller. */
  lemma {:induction false} ValuePrefix(p: string, s: string, b: Base)
    requires p <= s
    ensures Value(p, b) <= Value(s, b)
    decreases |s|
  {
    if p != s {
      ValuePrefix(p, s[..|s| - 1], b);
    }
  }

  /** A run of decimal digits worth at most 255 stays small when it is read in base 16. */
  lemma OctetReadInHex(s: string)
    requires AllDigits(s) && Value(s, Ten) <= 255
    ensures Value(s, Sixteen) <= 0xffff
  {
    DecimalBelowHex(s, 2);
  }

  lemma {:induction false} DecimalBelowHex(s: string, k: nat)
    requires k <= 2
    requires AllDigits(s) && Value(s, Ten) < [10, 100, 1000][k]
    ensures Value(s, Sixteen) < [16, 256, 4096][k]
    decreases |s|
  {
    if s != "" {
      var t := s[..|s| - 1];
      assert s[|s| - 1] in s;
      if k == 0 {
        DecimalZeroIsHexZero(t);
      } else {
        DecimalBelowHex(t, k - 1);
      }
    }
  }

  lemma {:induction false} DecimalZeroIsHexZero(s: string)
    requires AllDigits(s) && Value(s, Ten) == 0
    ensures Value(s, Sixteen) == 0
  {
    if s != "" {
      DecimalZeroIsHexZero(s[..|s| - 1]);
      assert s[|s| - 1] in s;
    }
  }

  /** The one digit that `printf` writes for `d`. */
  function Digit(d: nat): (c: char)
    requires d < 16
    ensures IsHexDigit(c) && DigitValue(c) == d
    ensures d < 10 ==> IsDigit(c)
  {
    if d < 10 then '0' + d as char else 'a' + (d - 10) as char
  }

  /** `n` without its last digit, and that digit. */
  function Cut(n: nat, b: Base): (r: (nat, nat))
    ensures n == Shift(r.0, b) + r.1 && r.1 < (if b.Ten? then 10 else 16)
    ensures r.0 > 0 ==> r.0 < n
  {
    match b
    case Ten => (n / 10, n % 10)
    case Sixteen => (n / 16, n % 16)
  }

  /** What `printf` writes for `n` with "%u" or "%x". */
  function Numeral(n: nat, b: Base): (s: string)
    ensures s != ""
    decreases n
  {
    var (q, d) := Cut(n, b);
    (if q == 0 then "" else Numeral(q, b)) + [Digit(d)]
  }

  /** Printing and reading back a number in the same base. */
  lemma {:induction false} NumeralRoundTrip(n: nat, b: Base)
    ensures Value(Numeral(n, b), b) == n
    ensures AllHexDigits(Numeral(n, b))
    ensures b == Ten ==> AllDigits(Numeral(n, b))
    decreases n
  {
    hide Digit, Cut;
    var (q, d) := Cut(n, b);
    var s := if q == 0 then "" else Numeral(q, b);
    if q > 0 {
      NumeralRoundTrip(q, b);
    }
    ValueSnoc(s, Digit(d), b);
  }

  /** With `k + 1` digits at hand the numeral is at most `k + 1` long. */
  lemma {:induction false} NumeralLength(n: nat, b: Base, k: nat)
    requires k <= 3
    requires n < if b.Ten? then [10, 100, 1000, 10000][k] else [0x10, 0x100, 0x1000, 0x1_0000][k]
    ensures |Numeral(n, b)| <= k + 1
    decreases k
  {
    var (q, d) := Cut(n, b);
    if q > 0 {
      NumeralLength(q, b, k - 1);
    }
  }

  // ---------------------------------------------------------------------
  // Splitting and joining
  // ---------------------------------------------------------------------

  /** The (possibly empty) pieces of a text between separators: those that a
      separator has ended, and the one at the end. */
  datatype Pieces = Pieces(done: seq<string>, last: string)

  /** The pieces after one more character has been read. */
  function Grow(p: Pieces, c: char, sep: char): Pieces {
    if c == sep then Pieces(p.done + [p.last], "") else Pieces(p.done, p.last + [c])
  }

  function Split(s: string, sep: char): Pieces {
    if s == "" then Pieces([], "") else Grow(Split(s[..|s| - 1], sep), s[|s| - 1], sep)
  }

  function Join(p: Pieces, sep: char): string
    decreases |p.done|
  {
    if p.done == [] then p.last
    else
      var n := |p.done| - 1;
      Join(Pieces(p.done[..n], p.done[n]), sep) + [sep] + p.last
  }

  lemma SplitSnoc(s: string, c: char, sep: char)
    ensures Split(s + [c], sep) == Grow(Split(s, sep), c, sep)
  {
    assert (s + [c])[..|s|] == s;
  }

  lemma SplitStep(s: string, i: nat, sep: char)
    requires i < |s|
    ensures Split(s[..i + 1], sep) == Grow(Split(s[..i], sep), s[i], sep)
  {
    assert s[..i + 1] == s[..i] + [s[i]];
    SplitSnoc(s[..i], s[i], sep);
  }

  /** Text without the separator is a single piece. */
  lemma {:induction false} SplitPlain(s: string, sep: char)
    requires sep !in s
    ensures Split(s, sep) == Pieces([], s)
  {
    if s != "" {
      var t, c := s[..|s| - 1], s[|s| - 1];
      SplitPlain(t, sep);
      assert c in s;
      assert t + [c] == s;
    }
  }

  /** No piece contains the separator, and text with a separator has several pieces. */
  lemma {:induction false} SplitPieces(s: string, sep: char)
    ensures var p := Split(s, sep);
      sep !in p.last && (forall k :: 0 <= k < |p.done| ==> sep !in p.done[k]) && (sep in s <==> p.done != [])
  {
    if s != "" {
      var t, c := s[..|s| - 1], s[|s| - 1];
      SplitPieces(t, sep);
      assert s == t + [c];
    }
  }

  /** Cutting just behind a separator cuts the list of pieces. */
  lemma {:induction false} SplitConcat(s: string, t: string, sep: char)
    ensures var p, q := Split(s, sep), Split(t, sep);
      Split(s + [sep] + t, sep) == Pieces(p.done + [p.last] + q.done, q.last)
    decreases |t|
  {
    if t == "" {
      SplitSnoc(s, sep, sep);
      assert s + [sep] + t == s + [sep];
    } else {
      var u, c := t[..|t| - 1], t[|t| - 1];
      SplitConcat(s, u, sep);
      assert s + [sep] + t == (s + [sep] + u) + [c];
      SplitSnoc(s + [sep] + u, c, sep);
    }
  }

  ghost predicate Separable(p: Pieces, sep: char) {
    sep !in p.last && forall k :: 0 <= k < |p.done| ==> sep !in p.done[k]
  }

  /** Joining pieces that lack the separator and splitting again gives the pieces. */
  lemma {:induction false} SplitJoin(p: Pieces, sep: char)
    requires Separable(p, sep)
    ensures Split(Join(p, sep), sep) == p
    decreases |p.done|
  {
    SplitPlain(p.last, sep);
    if p.done != [] {
      var n := |p.done| - 1;
      var q := Pieces(p.done[..n], p.done[n]);
      SplitJoin(q, sep);
      SplitConcat(Join(q, sep), p.last, sep);
      assert q.done + [q.last] + [] == p.done;
    }
  }

  /** How the pieces of a string extend the pieces of its first `i` characters:
      finished pieces stay, the last one may still grow. */
  ghost predicate Extends(p: Pieces, q: Pieces) {
    p.done <= q.done && p.last <= if |p.done| < |q.done| then q.done[|p.done|] else q.last
  }

  lemma {:induction false} SplitPrefix(s: string, i: nat, sep: char)
    requires i <= |s|
    ensures Extends(Split(s[..i], sep), Split(s, sep))
    decreases |s| - i
  {
    if i == |s| {
      assert s[..i] == s;
    } else {
      SplitPrefix(s, i + 1, sep);
      SplitStep(s, i, sep);
    }
  }

  lemma {:induction false} LastPiece(s: string, sep: char)
    ensures var t := Split(s, sep).last; |t| <= |s| && s[|s| - |t|..] == t
  {
    if s != "" {
      LastPiece(s[..|s| - 1], sep);
    }
  }

  /** From the start `k` of the current piece on, the rest of the string splits on its own. */
  lemma {:induction false} SplitFromPiece(s: string, i: nat, k: nat, sep: char)
    requires i <= |s| && k + |Split(s[..i], sep).last| == i
    ensures var p, q := Split(s[..i], sep), Split(s[k..], sep);
      Split(s, sep) == Pieces(p.done + q.done, q.last)
    decreases i
  {
    if i == 0 {
      assert s[0..] == s && s[..0] == "";
    } else {
      SplitStep(s, i - 1, sep);
      if s[i - 1] == sep {
        SplitAtSeparator(s, i, sep);
      } else {
        SplitFromPiece(s, i - 1, k, sep);
      }
    }
  }

  lemma SplitAtSeparator(s: string, i: nat, sep: char)
    requires 0 < i <= |s| && s[i - 1] == sep
    ensures var p, q := Split(s[..i - 1], sep), Split(s[i..], sep);
      Split(s, sep) == Pieces(p.done + [p.last] + q.done, q.last)
  {
    assert s == s[..i - 1] + [sep] + s[i..];
    SplitConcat(s[..i - 1], s[i..], sep);
  }

  /** A joined list followed by more pieces. */
  lemma {:induction false} JoinConcat(p: Pieces, q: Pieces, sep: char)
    ensures Join(Pieces(p.done + [p.last] + q.done, q.last), sep) == Join(p, sep) + [sep] + Join(q, sep)
    decreases |q.done|
  {
    var f := p.done + [p.last] + q.done;
    var n := |f| - 1;
    if q.done == [] {
      assert f[..n] == p.done && f[n] == p.last;
    } else {
      var m := |q.done| - 1;
      var r := Pieces(q.done[..m], q.done[m]);
      assert f[..n] == p.done + [p.last] + r.done && f[n] == r.last;
      JoinConcat(p, r, sep);
    }
  }

  lemma {:induction false} JoinLength(p: Pieces, sep: char, most: nat)
    requires most == 3 || most == 4
    requires |p.last| <= most && forall k :: 0 <= k < |p.done| ==> |p.done[k]| <= most
    ensures |Join(p, sep)| <= if most == 3 then 4 * |p.done| + 3 else 5 * |p.done| + 4
    decreases |p.done|
  {
    if p.done != [] {
      var n := |p.done| - 1;
      JoinLength(Pieces(p.done[..n], p.done[n]), sep, most);
    }
  }
}

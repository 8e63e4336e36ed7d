/** What one call of readline takes from the bytes not yet read, and what it returns, for
    the versions in lib, threads and server. */
module ReadlineSpec {
  import opened CText

  const NEWLINE: byte := 10

  /** How many bytes a call stores when there is room for `room`: up to and including the
      first newline, as far as there are bytes and room. */
  function Taken(u: seq<byte>, room: nat): (k: nat)
    ensures k <= |u| && k <= room
  {
    if room == 0 || u == [] then 0
    else if u[0] == NEWLINE then 1
    else 1 + Taken(u[1..], room - 1)
  }

  /** The buffer of `maxlen` bytes keeps one for the terminator. */
  function Room(maxlen: nat): nat {
    if maxlen == 0 then 0 else maxlen - 1
  }

  predicate EndsLine(s: seq<byte>) {
    s != [] && s[|s| - 1] == NEWLINE
  }

  /** `Taken` is the one length with these properties. */
  lemma {:induction false} TakenIs(u: seq<byte>, room: nat, k: nat)
    requires k <= |u| && k <= room
    ensures k == Taken(u, room) <==>
      NEWLINE !in u[..if k == 0 then 0 else k - 1] && (k == room || k == |u| || EndsLine(u[..k]))
  {
    if room == 0 || u == [] {
    } else if k == 0 {
    } else if u[0] == NEWLINE {
      if k > 1 {
        assert u[..k - 1][0] == NEWLINE;
      }
    } else {
      TakenIs(u[1..], room - 1, k - 1);
      assert u[1..][..k - 1] == u[1..k];
      assert u[..k] == [u[0]] + u[1..k];
      if k > 1 {
        assert u[1..][..k - 2] == u[1..k - 1] && u[..k - 1] == [u[0]] + u[1..k - 1];
      }
    }
  }

  /** Why a call stops. */
  datatype Stop = AtNewline | Full | AtEof

  function Why(u: seq<byte>, room: nat): Stop {
    var k := Taken(u, room);
    if EndsLine(u[..k]) then AtNewline else if k == room then Full else AtEof
  }

  /** lib/readline.c and threads/readline.c. */
  function LibReturn(u: seq<byte>, maxlen: nat): int {
    var k := Taken(u, Room(maxlen));
    if Why(u, Room(maxlen)).Full? then k + 1 else k
  }

  /** server/readline.c and server/readline_r.c. */
  function ServerReturn(u: seq<byte>, maxlen: nat): int {
    var k := Taken(u, Room(maxlen));
    if Why(u, Room(maxlen)).AtNewline? then k
    else if Why(u, Room(maxlen)).AtEof? && k == 0 then 0
    else k + 1
  }

  /** What the caller can see of the stream: its first `room` bytes, or all of it. */
  function Front(u: seq<byte>, room: nat): seq<byte> {
    if |u| < room then u else u[..room]
  }

  /** A call ends at a newline exactly when there is one in front. */
  lemma NewlineInFront(u: seq<byte>, room: nat)
    ensures EndsLine(u[..Taken(u, room)]) <==> NEWLINE in Front(u, room)
    ensures NEWLINE !in Front(u, room) ==> Taken(u, room) == |Front(u, room)|
  {
    var k, f := Taken(u, room), Front(u, room);
    TakenIs(u, room, k);
    if EndsLine(u[..k]) {
      assert f[k - 1] == NEWLINE;
    } else {
      assert f == u[..k];
      assert k > 0 ==> u[..k] == u[..k - 1] + [u[k - 1]];
    }
  }

  /** The return value counts the bytes stored, except when the first `maxlen` - 1 bytes
      have no newline among them: then the buffer is full, and it is one more... */
  lemma LibCounts(u: seq<byte>, maxlen: nat)
    ensures var k := Taken(u, Room(maxlen));
      LibReturn(u, maxlen) == if |u| >= Room(maxlen) && NEWLINE !in u[..Room(maxlen)] then k + 1 else k
    ensures |u| >= Room(maxlen) && NEWLINE !in u[..Room(maxlen)] ==> Taken(u, Room(maxlen)) == Room(maxlen)
  {
    hide Taken;
    NewlineInFront(u, Room(maxlen));
  }

  /** ...and in the server versions it is one more whenever no newline came, except at the
      end of the stream; they differ from the others exactly on a last line that is
      neither complete nor filling the buffer. */
  lemma ServerCounts(u: seq<byte>, maxlen: nat)
    ensures var k := Taken(u, Room(maxlen));
      ServerReturn(u, maxlen) ==
        if NEWLINE in Front(u, Room(maxlen)) || (u == [] && maxlen >= 2) then k else k + 1
    ensures ServerReturn(u, maxlen) != LibReturn(u, maxlen) <==>
      u != [] && |u| < Room(maxlen) && NEWLINE !in u
  {
    hide Taken;
    NewlineInFront(u, Room(maxlen));
    TakenIs(u, Room(maxlen), Taken(u, Room(maxlen)));
  }

  /** The terminator lies within the buffer if and only if the caller says it has room for
      anything at all: with `maxlen` 0 the byte behind it is written. */
  lemma TerminatorWithin(u: seq<byte>, maxlen: nat)
    ensures Taken(u, Room(maxlen)) < maxlen <==> maxlen > 0
  {
  }

  /** With room for a byte, 0 means the end of the stream. */
  lemma ZeroMeansEnd(u: seq<byte>, maxlen: nat)
    requires maxlen >= 2
    ensures LibReturn(u, maxlen) == 0 <==> u == []
    ensures ServerReturn(u, maxlen) == 0 <==> u == []
    ensures Taken(u, Room(maxlen)) == 0 <==> u == []
  {
  }

  /** What a call of a server version gives: its value and, unless that is 0, the bytes
      with their terminator. */
  function ServerResult(u: seq<byte>, maxlen: nat): (int, seq<byte>) {
    var r := ServerReturn(u, maxlen);
    (r, if r == 0 then [] else u[..Taken(u, Room(maxlen))] + [0])
  }

  function Rest(u: seq<byte>, maxlen: nat): seq<byte> {
    u[Taken(u, Room(maxlen))..]
  }

  /** The results of one call after the other. */
  function ServerResults(u: seq<byte>, calls: seq<nat>): seq<(int, seq<byte>)> {
    if calls == [] then [] else [ServerResult(u, calls[0])] + ServerResults(Rest(u, calls[0]), calls[1..])
  }

  /** The stream cut into what successive calls store. */
  function Lines(u: seq<byte>, room: nat): seq<seq<byte>>
    requires room > 0
    decreases |u|
  {
    if u == [] then [] else [u[..Taken(u, room)]] + Lines(u[Taken(u, room)..], room)
  }

  function Flatten(lines: seq<seq<byte>>): seq<byte> {
    if lines == [] then [] else lines[0] + Flatten(lines[1..])
  }

  /** A piece is nonempty, no longer than `room`, and without a newline before its last
      byte; unless it is the last one it fills the room or ends in a newline. */
  predicate IsPiece(s: seq<byte>, room: nat, last: bool) {
    0 < |s| <= room && NEWLINE !in s[..|s| - 1] && (|s| == room || EndsLine(s) || last)
  }

  lemma FirstPiece(u: seq<byte>, room: nat)
    requires room > 0 && u != []
    ensures var k := Taken(u, room); 0 < k && IsPiece(u[..k], room, k == |u|)
  {
    var k := Taken(u, room);
    TakenIs(u, room, k);
    assert u[..k][..k - 1] == u[..k - 1];
  }

  lemma LinesCons(u: seq<byte>, room: nat)
    requires room > 0 && u != []
    ensures Taken(u, room) > 0
    ensures Lines(u, room) == [u[..Taken(u, room)]] + Lines(u[Taken(u, room)..], room)
    ensures Flatten(Lines(u, room)) == u[..Taken(u, room)] + Flatten(Lines(u[Taken(u, room)..], room))
    ensures Taken(u, room) == |u| ==> Lines(u[Taken(u, room)..], room) == []
  {
    var l, k := Lines(u, room), Taken(u, room);
    assert l[1..] == Lines(u[k..], room);
  }

  /** The pieces make up the whole stream; a newline is only ever a last byte, and only
      the last piece may be short without one. */
  lemma {:induction false} LinesPartition(u: seq<byte>, room: nat)
    requires room > 0
    ensures Flatten(Lines(u, room)) == u
    ensures forall i :: 0 <= i < |Lines(u, room)| ==> IsPiece(Lines(u, room)[i], room, i == |Lines(u, room)| - 1)
    decreases |u|
  {
    hide Taken, IsPiece;
    if u != [] {
      var k := Taken(u, room);
      FirstPiece(u, room);
      LinesCons(u, room);
      LinesPartition(u[k..], room);
      var l, m := Lines(u, room), Lines(u[k..], room);
      assert u[..k] + u[k..] == u;
      assert m == [] || k < |u|;
      FirstNotLast(u[..k], room, k == |u|, |l| == 1);
      forall i | 1 <= i < |l| ensures IsPiece(l[i], room, i == |l| - 1) {
        assert l[i] == m[i - 1];
      }
    }
  }

  lemma FirstNotLast(s: seq<byte>, room: nat, end: bool, last: bool)
    requires IsPiece(s, room, end) && (end ==> last)
    ensures IsPiece(s, room, last)
  {
  }
}

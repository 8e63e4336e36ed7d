/** The line readers: `my_read` with its buffer and EINTR loop, `readline` and
    `readlinebuf` of lib/readline.c (the same algorithm as threads/readline.c),
    `readline_r` of server/readline_r.c and the unbuffered server/readline.c. */
module Readline {
  import opened CText
  import opened ReadlineSpec

  const MAXLINE: nat := 4096

  /** What the kernel makes of one read: an interruption, another error, or at most that
      many bytes (at least one, unless the stream is at its end). */
  datatype Outcome = Interrupted | Fail | Chunk(max: nat)

  /** `now` is what is left of `was` after some reads. */
  predicate Suffix(was: seq<Outcome>, now: seq<Outcome>) {
    |now| <= |was| && was[|was| - |now|..] == now
  }

  /** The reads between `was` and `now` went well: no error but interruptions. */
  predicate WentWell(was: seq<Outcome>, now: seq<Outcome>)
    requires Suffix(was, now)
  {
    forall k :: 0 <= k < |was| - |now| ==> !was[k].Fail?
  }

  /** The last of these reads failed. */
  predicate JustFailed(was: seq<Outcome>, now: seq<Outcome>)
    requires Suffix(was, now)
  {
    |now| < |was| && was[|was| - |now| - 1].Fail? && WentWell(was, [was[|was| - |now| - 1]] + now)
  }

  /** `k` bytes of `u` have been stored, none of them a newline. */
  predicate Underway(u: seq<byte>, k: int, stored: seq<byte>, unread: seq<byte>) {
    && 0 <= k <= |u| && k <= |stored| && stored[..k] == u[..k]
    && unread == u[k..] && NEWLINE !in u[..k]
  }

  /** `k` bytes have been stored, and the call stops because of `why`. */
  predicate Complete(u: seq<byte>, room: nat, k: nat, why: Stop, stored: seq<byte>, unread: seq<byte>) {
    && k == Taken(u, room) && why == Why(u, room)
    && k <= |stored| && stored[..k] == u[..k] && unread == u[k..]
  }

  lemma OneMore(u: seq<byte>, k: nat, stored: seq<byte>, unread: seq<byte>, c: byte, room: nat)
    requires Underway(u, k, stored, unread) && unread != [] && unread[0] == c && k < room && k < |stored|
    ensures c != NEWLINE ==> Underway(u, k + 1, stored[k := c], unread[1..])
    ensures c == NEWLINE ==> Complete(u, room, k + 1, AtNewline, stored[k := c], unread[1..])
  {
    assert u[k] == c && u[k..][1..] == u[k + 1..];
    assert u[..k + 1] == u[..k] + [c] && stored[k := c][..k + 1] == stored[..k] + [c];
    if c == NEWLINE {
      TakenIs(u, room, k + 1);
    }
  }

  lemma NoRoom(u: seq<byte>, room: nat, stored: seq<byte>, unread: seq<byte>)
    requires Underway(u, room, stored, unread)
    ensures Complete(u, room, room, Full, stored, unread)
  {
    TakenIs(u, room, room);
  }

  lemma NoMore(u: seq<byte>, k: nat, room: nat, stored: seq<byte>, unread: seq<byte>)
    requires Underway(u, k, stored, unread) && unread == [] && k < room
    ensures Complete(u, room, k, AtEof, stored, unread)
  {
    TakenIs(u, room, k);
  }

  lemma NoReads(script: seq<Outcome>)
    ensures Suffix(script, script) && WentWell(script, script)
  {
  }

  /** A store through a pointer; behind the array it has no place here. */
  function PutAt(stored: seq<byte>, k: nat, c: byte): (r: seq<byte>)
    ensures |r| == |stored|
  {
    if k < |stored| then stored[k := c] else stored
  }

  /** A call that ended with `k` bytes of `u` and the terminator in the buffer. The
      terminator is missing only from a buffer of no bytes at all, where the code writes it
      behind the end. */
  predicate Delivered(u: seq<byte>, k: nat, stored: seq<byte>, unread: seq<byte>) {
    && k <= |u| && k <= |stored| && stored[..k] == u[..k] && unread == u[k..]
    && (k < |stored| ==> stored[k] == 0)
  }

  /** The terminator, and what the two families of versions return. */
  lemma Terminated(u: seq<byte>, maxlen: nat, k: nat, why: Stop, stored: seq<byte>, unread: seq<byte>)
    requires Complete(u, Room(maxlen), k, why, stored, unread) && k <= |stored|
    ensures Delivered(u, Taken(u, Room(maxlen)), PutAt(stored, k, 0), unread)
    ensures LibReturn(u, maxlen) == if why.Full? then k + 1 else k
    ensures ServerReturn(u, maxlen) == if why.AtNewline? || (why.AtEof? && k == 0) then k else k + 1
  {
    hide Taken, Why;
  }

  lemma SuffixAt(was: seq<Outcome>, now: seq<Outcome>, k: nat)
    requires Suffix(was, now) && k < |now|
    ensures was[|was| - |now| + k] == now[k]
  {
    assert was[|was| - |now|..][k] == now[k];
  }

  lemma SuffixAdd(was: seq<Outcome>, mid: seq<Outcome>, now: seq<Outcome>)
    requires Suffix(was, mid) && Suffix(mid, now)
    ensures Suffix(was, now)
  {
    var i, j := |was| - |mid|, |mid| - |now|;
    assert was[i..][j..] == was[i + j..];
  }

  lemma WellAdd(was: seq<Outcome>, mid: seq<Outcome>, now: seq<Outcome>)
    requires Suffix(was, mid) && WentWell(was, mid) && Suffix(mid, now) && WentWell(mid, now)
    ensures Suffix(was, now) && WentWell(was, now)
  {
    SuffixAdd(was, mid, now);
    var i := |was| - |mid|;
    forall k | 0 <= k < |was| - |now| ensures !was[k].Fail? {
      if k >= i {
        SuffixAt(was, mid, k - i);
      }
    }
  }

  lemma FailAdd(was: seq<Outcome>, mid: seq<Outcome>, now: seq<Outcome>)
    requires Suffix(was, mid) && WentWell(was, mid) && Suffix(mid, now) && JustFailed(mid, now)
    ensures Suffix(was, now) && JustFailed(was, now)
  {
    hide WentWell;
    var f := mid[|mid| - |now| - 1];
    SuffixAdd(was, mid, now);
    SuffixAt(was, mid, |mid| - |now| - 1);
    WellAdd(was, mid, [f] + now);
  }

  lemma ReadsAdd(was: seq<Outcome>, mid: seq<Outcome>, now: seq<Outcome>)
    requires Suffix(was, mid) && WentWell(was, mid) && Suffix(mid, now)
    ensures Suffix(was, now)
    ensures WentWell(mid, now) ==> WentWell(was, now)
    ensures JustFailed(mid, now) ==> JustFailed(was, now)
  {
    hide Suffix, WentWell, JustFailed;
    SuffixAdd(was, mid, now);
    if WentWell(mid, now) {
      WellAdd(was, mid, now);
    }
    if JustFailed(mid, now) {
      FailAdd(was, mid, now);
    }
  }

  lemma ReadOnce(was: seq<Outcome>, mid: seq<Outcome>, now: seq<Outcome>)
    requires Suffix(was, mid) && WentWell(was, mid) && now == if mid == [] then [] else mid[1..]
    ensures Suffix(was, now)
    ensures if mid != [] && mid[0].Fail? then JustFailed(was, now) else WentWell(was, now)
  {
    if mid != [] {
      var i := |was| - |mid|;
      assert was[i] == mid[0] && was[i..][1..] == was[i + 1..];
      assert [mid[0]] + now == mid;
    }
  }

  /** A call that ended with an error before its line was complete. */
  predicate CutShort(u: seq<byte>, room: nat, stored: seq<byte>, unread: seq<byte>) {
    var k := |u| - |unread|;
    k < room && Underway(u, k, stored, unread)
  }

  /** The state of a call between two bytes. */
  predicate Going(script: seq<Outcome>, now: seq<Outcome>, u: seq<byte>, k: int, stored: seq<byte>, unread: seq<byte>) {
    Suffix(script, now) && WentWell(script, now) && Underway(u, k, stored, unread)
  }

  lemma Begin(script: seq<Outcome>, u: seq<byte>, stored: seq<byte>)
    ensures Going(script, script, u, 0, stored, u)
  {
  }

  lemma RoomIs(maxlen: nat)
    ensures Room(maxlen) == if maxlen == 0 then 0 else maxlen - 1
  {
  }

  /** What a round that began with `k` bytes stored comes to: another byte, which may be
      the newline; the end of the stream; or an error. */
  predicate Round(script: seq<Outcome>, now: seq<Outcome>, u: seq<byte>, k: nat, room: nat, rc: int, c: byte,
                  stored: seq<byte>, unread: seq<byte>) {
    if rc == 1 then
      if c == NEWLINE then Ended(script, now, u, room, k + 1, AtNewline, stored, unread)
      else Going(script, now, u, k + 1, stored, unread)
    else if rc == 0 then Ended(script, now, u, room, k, AtEof, stored, unread) && unread == []
    else rc == -1 && Suffix(script, now) && JustFailed(script, now) && CutShort(u, room, stored, unread)
  }

  lemma RoundIs(script: seq<Outcome>, mid: seq<Outcome>, now: seq<Outcome>, u: seq<byte>, k: nat, room: nat,
                rc: int, c: byte, stored: seq<byte>, unread: seq<byte>, left: seq<byte>)
    requires Going(script, mid, u, k, stored, unread) && k < room && k < |stored| && Suffix(mid, now)
    requires rc == 1 || rc == 0 || rc == -1
    requires rc == 1 ==> unread != [] && unread[0] == c && left == unread[1..]
    requires rc == 0 ==> unread == left == []
    requires rc == -1 ==> left == unread
    requires if rc == -1 then JustFailed(mid, now) else WentWell(mid, now)
    ensures Round(script, now, u, k, room, rc, c, if rc == 1 then stored[k := c] else stored, left)
  {
    ReadsAdd(script, mid, now);
    if rc == 1 {
      OneMore(u, k, stored, unread, c, room);
    } else if rc == 0 {
      NoMore(u, k, room, stored, unread);
    }
  }

  /** The call is over but for the terminator. */
  predicate Ended(script: seq<Outcome>, now: seq<Outcome>, u: seq<byte>, room: nat, k: nat, why: Stop,
                  stored: seq<byte>, unread: seq<byte>) {
    Suffix(script, now) && WentWell(script, now) && Complete(u, room, k, why, stored, unread)
  }

  /** A whole call: `r` is its return value, `good` the one for a call without error. It
      fails only when a read failed, and then short of the end of its line. */
  predicate Call(script: seq<Outcome>, now: seq<Outcome>, u: seq<byte>, maxlen: nat, good: int, r: int,
                 stored: seq<byte>, unread: seq<byte>) {
    && Suffix(script, now)
    && if r == -1 then JustFailed(script, now) && CutShort(u, Room(maxlen), stored, unread)
       else
         && WentWell(script, now) && r == good
         && Delivered(u, Taken(u, Room(maxlen)), stored, unread)
  }

  lemma CallFailed(script: seq<Outcome>, now: seq<Outcome>, u: seq<byte>, k: nat, maxlen: nat, c: byte, good: int,
                   stored: seq<byte>, unread: seq<byte>)
    requires Round(script, now, u, k, Room(maxlen), -1, c, stored, unread)
    ensures Call(script, now, u, maxlen, good, -1, stored, unread)
  {
  }

  lemma CallEnds(script: seq<Outcome>, now: seq<Outcome>, u: seq<byte>, maxlen: nat, k: nat, why: Stop,
                 stored: seq<byte>, unread: seq<byte>)
    requires Ended(script, now, u, Room(maxlen), k, why, stored, unread) && k <= |stored|
    ensures Call(script, now, u, maxlen, LibReturn(u, maxlen), if why.Full? then k + 1 else k, PutAt(stored, k, 0),
                 unread)
    ensures Call(script, now, u, maxlen, ServerReturn(u, maxlen),
                 if why.AtNewline? || (why.AtEof? && k == 0) then k else k + 1, PutAt(stored, k, 0), unread)
  {
    Terminated(u, maxlen, k, why, stored, unread);
  }

  /** A whole call of a server version, which leaves the buffer alone when nothing is left. */
  predicate ServerCall(script: seq<Outcome>, now: seq<Outcome>, u: seq<byte>, maxlen: nat, r: int,
                       before: seq<byte>, stored: seq<byte>, unread: seq<byte>) {
    if r == 0 then
      && Suffix(script, now) && WentWell(script, now) && ServerReturn(u, maxlen) == 0
      && u == [] && unread == [] && stored == before
    else Call(script, now, u, maxlen, ServerReturn(u, maxlen), r, stored, unread)
  }

  lemma NothingLeft(script: seq<Outcome>, now: seq<Outcome>, u: seq<byte>, maxlen: nat, c: byte,
                    stored: seq<byte>, unread: seq<byte>)
    requires Round(script, now, u, 0, Room(maxlen), 0, c, stored, unread)
    ensures ServerCall(script, now, u, maxlen, 0, stored, stored, unread)
  {
  }

  /** Where the loops are left after `k` bytes: when they ran out (the last round, if any,
      brought an ordinary byte), at a newline, or at the end of the stream. */
  predicate AfterLoop(script: seq<Outcome>, now: seq<Outcome>, u: seq<byte>, room: nat, k: nat, rc: int, c: byte,
                      stored: seq<byte>, unread: seq<byte>) {
    if rc == 1 && c != NEWLINE then k == room && Going(script, now, u, k, stored, unread)
    else if rc == 1 then k > 0 && Round(script, now, u, k - 1, room, rc, c, stored, unread)
    else rc == 0 && Round(script, now, u, k, room, rc, c, stored, unread)
  }

  lemma LoopEnds(script: seq<Outcome>, now: seq<Outcome>, u: seq<byte>, room: nat, k: nat, rc: int, c: byte,
                 stored: seq<byte>, unread: seq<byte>) returns (why: Stop)
    requires AfterLoop(script, now, u, room, k, rc, c, stored, unread)
    ensures Ended(script, now, u, room, k, why, stored, unread)
    ensures why == if rc == 0 then AtEof else if c == NEWLINE then AtNewline else Full
  {
    if rc == 1 && c != NEWLINE {
      NoRoom(u, room, stored, unread);
    }
    why := if rc == 0 then AtEof else if c == NEWLINE then AtNewline else Full;
  }

  /** The common tail of the server versions. */
  lemma ServerTail(script: seq<Outcome>, now: seq<Outcome>, u: seq<byte>, maxlen: nat, k: nat, rc: int, c: byte,
                   before: seq<byte>, stored: seq<byte>, unread: seq<byte>)
    requires AfterLoop(script, now, u, Room(maxlen), k, rc, c, stored, unread)
    requires k <= |stored| && (rc == 0 ==> k > 0)
    ensures ServerCall(script, now, u, maxlen, if rc == 1 && c == NEWLINE then k else k + 1, before,
                       PutAt(stored, k, 0), unread)
  {
    hide Taken, Room, WentWell, Suffix, Round, Going;
    var why := LoopEnds(script, now, u, Room(maxlen), k, rc, c, stored, unread);
    CallEnds(script, now, u, maxlen, k, why, stored, unread);
  }

  /** The common tail of the other versions. */
  lemma LibTail(script: seq<Outcome>, now: seq<Outcome>, u: seq<byte>, maxlen: nat, k: nat, rc: int, c: byte,
                stored: seq<byte>, unread: seq<byte>)
    requires AfterLoop(script, now, u, Room(maxlen), k, rc, c, stored, unread) && k <= |stored|
    ensures Call(script, now, u, maxlen, LibReturn(u, maxlen), if rc == 1 && c != NEWLINE then k + 1 else k,
                 PutAt(stored, k, 0), unread)
  {
    hide Taken, Room, WentWell, Suffix, Round, Going;
    var why := LoopEnds(script, now, u, Room(maxlen), k, rc, c, stored, unread);
    CallEnds(script, now, u, maxlen, k, why, stored, unread);
  }

  lemma ServerFails(script: seq<Outcome>, now: seq<Outcome>, u: seq<byte>, k: nat, maxlen: nat, c: byte,
                    before: seq<byte>, stored: seq<byte>, unread: seq<byte>)
    requires Round(script, now, u, k, Room(maxlen), -1, c, stored, unread)
    ensures ServerCall(script, now, u, maxlen, -1, before, stored, unread)
  {
  }

  lemma OneByte(was: seq<byte>, now: seq<byte>, n: int, buf: seq<byte>)
    requires Fetched(was, now, n, buf) && -1 <= n <= 1 && |buf| == 1
    ensures n == 1 ==> was != [] && buf[0] == was[0] && now == was[1..]
    ensures n == 0 ==> was == [] && now == []
    ensures n == -1 ==> now == was
  {
    if n == 1 {
      assert buf[..1][0] == was[..1][0];
    }
  }

  /** One read that returned `n`: nothing moves on an error, 0 means the end, and
      otherwise the next `n` bytes are in the buffer. */
  predicate Fetched(was: seq<byte>, now: seq<byte>, n: int, buf: seq<byte>) {
    if n == -1 then now == was
    else
      && 0 <= n <= |was| && n <= |buf| && (n == 0 <==> was == [])
      && buf[..n] == was[..n] && now == was[n..]
  }

  /** A descriptor: the bytes not yet delivered and the fate of the coming reads; reads
      beyond the script deliver as much as they can. */
  class Descriptor {
    var stream: seq<byte>
    var script: seq<Outcome>

    constructor (stream: seq<byte>, script: seq<Outcome>)
      ensures this.stream == stream && this.script == script
    {
      this.stream, this.script := stream, script;
    }

    method Read(buf: array<byte>, size: nat) returns (n: int, eintr: bool)
      requires 0 < size <= buf.Length
      modifies this, buf
      ensures script == if old(script) == [] then [] else old(script[1..])
      ensures n == -1 <==> old(script) != [] && !old(script)[0].Chunk?
      ensures eintr <==> old(script) != [] && old(script)[0].Interrupted?
      ensures -1 <= n <= size && Fetched(old(stream), stream, n, buf[..])
    {
      var max := size;
      if script != [] {
        var next := script[0];
        script := script[1..];
        match next {
          case Interrupted => return -1, true;
          case Fail => return -1, false;
          case Chunk(m) => max := if m == 0 then 1 else if m < size then m else size;
        }
      }
      eintr := false;
      n := if |stream| < max then |stream| else max;
      for i := 0 to n
        modifies buf
        invariant buf[..i] == stream[..i]
      {
        buf[i] := stream[i];
      }
      stream := stream[n..];
    }
  }

  /** `*ptr = c`. */
  method Put(vptr: array<byte>, ptr: nat, c: byte)
    modifies vptr
    ensures vptr[..] == PutAt(old(vptr[..]), ptr, c)
  {
    if ptr < vptr.Length {
      vptr[ptr] := c;
    }
  }

  /** The buffer of one reader: the static variables of lib/readline.c, the thread's own
      data of threads/readline.c, or the `Rline` of server/readline_r.c. */
  class Rline {
    var cnt: int          // what is left in the buffer; the last result of read if that was not positive
    var ptr: nat          // index of the next byte in the buffer
    const buf: array<byte>

    ghost predicate Valid()
      reads this
    {
      buf.Length == MAXLINE && -1 <= cnt && (cnt > 0 ==> ptr + cnt <= MAXLINE)
    }

    ghost function Buffered(): seq<byte>
      requires Valid()
      reads this, buf
    {
      if cnt > 0 then buf[ptr..ptr + cnt] else []
    }

    /** What the caller has not seen yet. */
    ghost function Unread(d: Descriptor): seq<byte>
      requires Valid()
      reads this, buf, d
    {
      Buffered() + d.stream
    }

    constructor ()
      ensures Valid() && Buffered() == [] && fresh(buf)
    {
      cnt, ptr := 0, 0;
      buf := new byte[MAXLINE](_ => 0);
    }

    /** Read until something other than EINTR comes back. */
    method Refill(d: Descriptor)
      requires buf.Length == MAXLINE
      modifies this, buf, d
      ensures -1 <= cnt <= MAXLINE && (cnt > 0 ==> ptr == 0) && Suffix(old(d.script), d.script)
      ensures if cnt == -1 then JustFailed(old(d.script), d.script) else WentWell(old(d.script), d.script)
      ensures Fetched(old(d.stream), d.stream, cnt, buf[..])
    {
      hide Suffix, WentWell, JustFailed;
      ghost var script, stream := d.script, d.stream;
      NoReads(script);
      assert Fetched(stream, stream, -1, buf[..]);
      var n, eintr := -1, true;
      while n < 0 && eintr
        invariant Suffix(script, d.script) && -1 <= n <= MAXLINE && buf.Length == MAXLINE
        invariant Fetched(stream, d.stream, n, buf[..]) && (eintr ==> d.stream == stream)
        invariant if n == -1 && !eintr then JustFailed(script, d.script) else WentWell(script, d.script)
        decreases |d.script| + (if eintr then 1 else 0)
      {
        ghost var mid := d.script;
        n, eintr := d.Read(buf, MAXLINE);
        ReadOnce(script, mid, d.script);
      }
      cnt := n;
      if n > 0 {
        ptr := 0;
      }
    }

    /** The next byte; 0 at the end of the stream, -1 for an error other than EINTR. */
    method MyRead(d: Descriptor) returns (rc: int, c: byte)
      requires Valid()
      modifies this, buf, d
      ensures Valid() && Suffix(old(d.script), d.script)
      ensures rc == 1 || rc == 0 || rc == -1
      ensures rc == 1 ==> old(Unread(d)) != [] && c == old(Unread(d))[0] && Unread(d) == old(Unread(d))[1..]
      ensures rc == 0 ==> old(Unread(d)) == [] && Unread(d) == []
      ensures rc == -1 ==> Unread(d) == old(Unread(d)) && cnt == -1
      ensures if rc == -1 then JustFailed(old(d.script), d.script) else WentWell(old(d.script), d.script)
    {
      hide Suffix, WentWell, JustFailed;
      c := 0;
      NoReads(d.script);
      ghost var u := Unread(d);
      if cnt <= 0 {
        Refill(d);
        if cnt < 0 {
          return -1, c;
        } else if cnt == 0 {
          return 0, c;
        }
        assert Unread(d) == u;
      }
      assert u[0] == buf[ptr] && u[1..] == buf[ptr + 1..ptr + cnt] + d.stream;
      cnt := cnt - 1;
      c := buf[ptr];
      ptr := ptr + 1;
      assert u[1..] == Unread(d);
      return 1, c;
    }

    /** One round of either loop: the next byte goes into the caller's buffer. */
    method TakeByte(d: Descriptor, vptr: array<byte>, ptr: nat,
                    ghost script: seq<Outcome>, ghost u: seq<byte>, ghost room: nat) returns (rc: int, c: byte)
      requires Valid() && vptr != buf && ptr < room && ptr < vptr.Length
      requires Going(script, d.script, u, ptr, vptr[..], Unread(d))
      modifies this, buf, d, vptr
      ensures Valid() && (rc != 1 ==> vptr[..] == old(vptr[..]))
      ensures Round(script, d.script, u, ptr, room, rc, c, vptr[..], Unread(d))
    {
      hide Suffix, WentWell, JustFailed, Underway, Complete, Delivered, CutShort, Ended, Call, ServerCall, Taken,
        Why, LibReturn, ServerReturn, Going, Round, Rline.Valid, Rline.Unread, Rline.Buffered;
      ghost var stored, unread, mid := vptr[..], Unread(d), d.script;
      rc, c := MyRead(d);
      ghost var left := Unread(d);
      if rc == 1 {
        Put(vptr, ptr, c);
        assert Unread(d) == left;
      }
      RoundIs(script, mid, d.script, u, ptr, room, rc, c, stored, unread, left);
    }

    /** lib/readline.c:28-49, threads/readline.c:46-73. */
    method Readline(d: Descriptor, vptr: array<byte>, maxlen: nat) returns (r: int)
      requires Valid() && maxlen <= vptr.Length && vptr != buf
      modifies this, buf, d, vptr
      ensures Valid()
      ensures var u := old(Unread(d));
        Call(old(d.script), d.script, u, maxlen, LibReturn(u, maxlen), r, vptr[..], Unread(d))
    {
      hide Suffix, WentWell, JustFailed, Underway, Complete, Delivered, CutShort, Ended, Call, ServerCall, Taken,
        Why, LibReturn, ServerReturn, Rline.Valid, Rline.Unread, Rline.Buffered, Room;
      ghost var u, script := Unread(d), d.script;
      var n, ptr, rc, c := 1, 0, 1, 0;
      Begin(script, u, vptr[..]);
      RoomIs(maxlen);
      while n < maxlen
        invariant 1 <= n && ptr == n - 1 <= Room(maxlen) && Valid() && rc == 1 && c != NEWLINE
        invariant Going(script, d.script, u, ptr, vptr[..], Unread(d))
      {
        rc, c := TakeByte(d, vptr, ptr, script, u, Room(maxlen));
        if rc == 1 {
          ptr := ptr + 1;
          if c == NEWLINE {
            break;
          }
        } else if rc == 0 {
          LibTail(script, d.script, u, maxlen, ptr, rc, c, vptr[..], Unread(d));
          ghost var left := Unread(d);
          Put(vptr, ptr, 0);
          assert Unread(d) == left;
          return n - 1;
        } else {
          CallFailed(script, d.script, u, ptr, maxlen, c, LibReturn(u, maxlen), vptr[..], Unread(d));
          return -1;
        }
        n := n + 1;
      }
      LibTail(script, d.script, u, maxlen, ptr, rc, c, vptr[..], Unread(d));
      ghost var left := Unread(d);
      Put(vptr, ptr, 0);
      assert Unread(d) == left;
      return n;
    }

    /** server/readline_r.c:38-61. */
    method ReadlineR(d: Descriptor, vptr: array<byte>, maxlen: nat) returns (r: int)
      requires Valid() && maxlen <= vptr.Length && vptr != buf
      modifies this, buf, d, vptr
      ensures Valid()
      ensures ServerCall(old(d.script), d.script, old(Unread(d)), maxlen, r, old(vptr[..]), vptr[..], Unread(d))
    {
      hide Suffix, WentWell, JustFailed, Underway, Complete, Delivered, CutShort, Ended, Call, ServerCall, Taken,
        Why, LibReturn, ServerReturn, Rline.Valid, Rline.Unread, Rline.Buffered, Room;
      ghost var u, script, before := Unread(d), d.script, vptr[..];
      var n, ptr, rc, c := 1, 0, 1, 0;
      Begin(script, u, vptr[..]);
      RoomIs(maxlen);
      while n < maxlen
        invariant 1 <= n && ptr == n - 1 <= Room(maxlen) && Valid() && rc == 1 && c != NEWLINE
        invariant Going(script, d.script, u, ptr, vptr[..], Unread(d))
        invariant ptr == 0 ==> vptr[..] == before
      {
        rc, c := TakeByte(d, vptr, ptr, script, u, Room(maxlen));
        if rc == 1 {
          ptr := ptr + 1;
          if c == NEWLINE {
            break;
          }
        } else if rc == 0 {
          if n == 1 {
            NothingLeft(script, d.script, u, maxlen, c, vptr[..], Unread(d));
            return 0;
          } else {
            break;
          }
        } else {
          ServerFails(script, d.script, u, ptr, maxlen, c, before, vptr[..], Unread(d));
          return -1;
        }
        n := n + 1;
      }
      ServerTail(script, d.script, u, maxlen, ptr, rc, c, before, vptr[..], Unread(d));
      ghost var left := Unread(d);
      Put(vptr, ptr, 0);
      assert Unread(d) == left;
      return n;
    }

    /** lib/readline.c:51-57: the bytes that were read ahead, or the error that read last
        returned. */
    method ReadlineBuf() returns (n: int, p: nat)
      requires Valid()
      ensures n == cnt && (n > 0 ==> p + n <= buf.Length && buf[p..p + n] == Buffered())
      ensures n <= 0 ==> Buffered() == []
    {
      n, p := cnt, ptr;
    }
  }

  /** For a reader without an EINTR loop every unsuccessful read is an error. */
  function Strict(script: seq<Outcome>): (t: seq<Outcome>)
    ensures |t| == |script|
  {
    seq(|script|, k requires 0 <= k < |script| => if script[k].Interrupted? then Fail else script[k])
  }

  lemma StrictOnce(mid: seq<Outcome>, now: seq<Outcome>)
    requires now == if mid == [] then [] else mid[1..]
    ensures Suffix(Strict(mid), Strict(now))
    ensures if mid != [] && !mid[0].Chunk? then JustFailed(Strict(mid), Strict(now))
            else WentWell(Strict(mid), Strict(now))
  {
    var was := Strict(mid);
    assert Suffix(was, was) && WentWell(was, was);
    ReadOnce(was, was, Strict(now));
  }

  /** One round of the loop: one byte from the descriptor into the buffer. */
  method TakeOne(d: Descriptor, cell: array<byte>, vptr: array<byte>, ptr: nat,
                 ghost script: seq<Outcome>, ghost u: seq<byte>, ghost room: nat) returns (rc: int, c: byte)
    requires cell.Length == 1 && cell != vptr && ptr < room && ptr < vptr.Length
    requires Going(script, Strict(d.script), u, ptr, vptr[..], d.stream)
    modifies d, cell, vptr
    ensures rc != 1 ==> vptr[..] == old(vptr[..])
    ensures Round(script, Strict(d.script), u, ptr, room, rc, c, vptr[..], d.stream)
  {
    hide Suffix, WentWell, JustFailed, Underway, Complete, CutShort, Ended, Call, Taken, Why, Going, Round, Strict;
    ghost var stored, unread, mid := vptr[..], d.stream, d.script;
    var eintr;
    rc, eintr := d.Read(cell, 1);
    c := cell[0];
    StrictOnce(mid, d.script);
    OneByte(unread, d.stream, rc, cell[..]);
    RoundIs(script, Strict(mid), Strict(d.script), u, ptr, room, rc, c, stored, unread, d.stream);
    if rc == 1 {
      Put(vptr, ptr, c);
    }
  }

  /** server/readline.c:4-27: one byte per read. */
  method ReadlineUnbuffered(d: Descriptor, vptr: array<byte>, maxlen: nat) returns (r: int)
    requires maxlen <= vptr.Length
    modifies d, vptr
    ensures ServerCall(Strict(old(d.script)), Strict(d.script), old(d.stream), maxlen, r, old(vptr[..]), vptr[..],
                       d.stream)
  {
    hide Suffix, WentWell, JustFailed, Underway, Complete, Delivered, CutShort, Ended, Call, ServerCall, Taken, Why,
      LibReturn, ServerReturn, Room, Strict;
    ghost var u, script, before := d.stream, Strict(d.script), vptr[..];
    var n, ptr, rc, c: byte := 1, 0, 1, 0;
    var cell := new byte[1];
    Begin(script, u, vptr[..]);
    RoomIs(maxlen);
    while n < maxlen
      invariant 1 <= n && ptr == n - 1 <= Room(maxlen) && rc == 1 && c != NEWLINE
      invariant Going(script, Strict(d.script), u, ptr, vptr[..], d.stream)
      invariant ptr == 0 ==> vptr[..] == before
    {
      rc, c := TakeOne(d, cell, vptr, ptr, script, u, Room(maxlen));
      if rc == 1 {
        ptr := ptr + 1;
        if c == NEWLINE {
          break;
        }
      } else if rc == 0 {
        if n == 1 {
          NothingLeft(script, Strict(d.script), u, maxlen, c, vptr[..], d.stream);
          return 0;
        } else {
          break;
        }
      } else {
        ServerFails(script, Strict(d.script), u, ptr, maxlen, c, before, vptr[..], d.stream);
        return -1;
      }
      n := n + 1;
    }
    ServerTail(script, Strict(d.script), u, maxlen, ptr, rc, c, before, vptr[..], d.stream);
    Put(vptr, ptr, 0);
    return n;
  }

  // ---------------------------------------------------------------------
  // Many calls
  // ---------------------------------------------------------------------

  predicate NoErrors(script: seq<Outcome>) {
    forall k :: 0 <= k < |script| ==> !script[k].Fail?
  }

  predicate NoSignals(script: seq<Outcome>) {
    forall k :: 0 <= k < |script| ==> script[k].Chunk?
  }

  lemma ErrorFree(was: seq<Outcome>, now: seq<Outcome>)
    requires Suffix(was, now) && NoErrors(was)
    ensures NoErrors(now) && WentWell(was, now) && !JustFailed(was, now)
  {
    var i := |was| - |now|;
    forall k | 0 <= k < |now| ensures !now[k].Fail? {
      assert now[k] == was[i..][k];
    }
  }

  lemma NothingBuffered(l: Rline, d: Descriptor)
    requires l.Valid() && l.Buffered() == []
    ensures l.Unread(d) == d.stream
  {
  }

  /** What the caller finds in the buffer: nothing new after 0, else the C string. */
  ghost function Text(u: seq<byte>, maxlen: nat, r: int, stored: seq<byte>): seq<byte> {
    var k := Taken(u, Room(maxlen));
    if r == 0 || k + 1 > |stored| then [] else stored[..k + 1]
  }

  lemma CallIsResult(script: seq<Outcome>, now: seq<Outcome>, u: seq<byte>, maxlen: nat, r: int,
                     before: seq<byte>, stored: seq<byte>, unread: seq<byte>)
    requires ServerCall(script, now, u, maxlen, r, before, stored, unread) && NoErrors(script)
    requires Room(maxlen) < |stored|
    ensures NoErrors(now)
    ensures (r, Text(u, maxlen, r, stored)) == ServerResult(u, maxlen) && unread == Rest(u, maxlen)
  {
    ErrorFree(script, now);
    if r != 0 {
      var k := Taken(u, Room(maxlen));
      assert stored[..k + 1] == stored[..k] + [0];
    }
  }

  /** A call of `readline_r` with a buffer of its own: its return value and what it left. */
  method CallBuffered(l: Rline, d: Descriptor, maxlen: nat) returns (r: int, ghost text: seq<byte>)
    requires l.Valid() && NoErrors(d.script)
    modifies l, l.buf, d
    ensures l.Valid() && NoErrors(d.script)
    ensures (r, text) == ServerResult(old(l.Unread(d)), maxlen) && l.Unread(d) == Rest(old(l.Unread(d)), maxlen)
  {
    hide Suffix, WentWell, JustFailed, Underway, Complete, Delivered, CutShort, Ended, Call, ServerCall, Taken, Why,
      LibReturn, ServerReturn, Rline.Valid, Rline.Unread, Rline.Buffered, NoErrors, ServerResult, Rest;
    var vptr := new byte[if maxlen == 0 then 1 else maxlen](_ => 0);
    ghost var u, script, before := l.Unread(d), d.script, vptr[..];
    r := l.ReadlineR(d, vptr, maxlen);
    CallIsResult(script, d.script, u, maxlen, r, before, vptr[..], l.Unread(d));
    text := Text(u, maxlen, r, vptr[..]);
  }

  lemma StrictNoErrors(script: seq<Outcome>)
    ensures NoErrors(Strict(script)) <==> NoSignals(script)
  {
    if NoErrors(Strict(script)) {
      forall k | 0 <= k < |script| ensures script[k].Chunk? {
        assert !Strict(script)[k].Fail?;
      }
    }
  }

  /** A call of the unbuffered `readline`. */
  method CallUnbuffered(d: Descriptor, maxlen: nat) returns (r: int, ghost text: seq<byte>)
    requires NoSignals(d.script)
    modifies d
    ensures NoSignals(d.script)
    ensures (r, text) == ServerResult(old(d.stream), maxlen) && d.stream == Rest(old(d.stream), maxlen)
  {
    hide Suffix, WentWell, JustFailed, Underway, Complete, Delivered, CutShort, Ended, Call, ServerCall, Taken, Why,
      LibReturn, ServerReturn, NoErrors, NoSignals, Strict, ServerResult, Rest;
    var vptr := new byte[if maxlen == 0 then 1 else maxlen](_ => 0);
    ghost var u, script, before := d.stream, d.script, vptr[..];
    StrictNoErrors(script);
    r := ReadlineUnbuffered(d, vptr, maxlen);
    CallIsResult(Strict(script), Strict(d.script), u, maxlen, r, before, vptr[..], d.stream);
    StrictNoErrors(d.script);
    text := Text(u, maxlen, r, vptr[..]);
  }

  lemma ResultsEnd(stream: seq<byte>, calls: seq<nat>, done: seq<(int, seq<byte>)>, rest: seq<byte>)
    requires done + ServerResults(rest, calls[|calls|..]) == ServerResults(stream, calls)
    ensures done == ServerResults(stream, calls)
  {
  }

  lemma ResultsStep(stream: seq<byte>, calls: seq<nat>, i: nat, done: seq<(int, seq<byte>)>, rest: seq<byte>)
    requires i < |calls| && done + ServerResults(rest, calls[i..]) == ServerResults(stream, calls)
    ensures done + [ServerResult(rest, calls[i])] + ServerResults(Rest(rest, calls[i]), calls[i + 1..])
         == ServerResults(stream, calls)
  {
    hide ServerResult, Rest;
    assert calls[i..][1..] == calls[i + 1..] && calls[i..][0] == calls[i];
    var tail := ServerResults(Rest(rest, calls[i]), calls[i + 1..]);
    assert done + ([ServerResult(rest, calls[i])] + tail) == done + [ServerResult(rest, calls[i])] + tail;
  }

  /** The buffered reader and the unbuffered one on two descriptors with the same bytes,
      whatever the chunks and, for the buffered one, the signals: any number of calls with
      any buffer sizes give the same return values and strings, and the bytes that remain
      are the same, counting those read ahead. */
  method SameLines(stream: seq<byte>, chunks: seq<Outcome>, singles: seq<Outcome>, calls: seq<nat>)
    returns (l: Rline, d: Descriptor, e: Descriptor,
             ghost buffered: seq<(int, seq<byte>)>, ghost unbuffered: seq<(int, seq<byte>)>)
    requires NoErrors(chunks) && NoSignals(singles)
    ensures l.Valid() && buffered == unbuffered == ServerResults(stream, calls)
    ensures l.Unread(d) == e.stream
  {
    hide Rline.Valid, Rline.Unread, NoErrors, NoSignals, ServerResult, ServerResults, Rest;
    l := new Rline();
    d := new Descriptor(stream, chunks);
    e := new Descriptor(stream, singles);
    buffered, unbuffered := [], [];
    NothingBuffered(l, d);
    assert calls[0..] == calls;
    for i := 0 to |calls|
      invariant l.Valid() && NoErrors(d.script) && NoSignals(e.script)
      invariant fresh(l) && fresh(l.buf) && fresh(d) && fresh(e) && d != e
      invariant l.Unread(d) == e.stream && buffered == unbuffered
      invariant buffered + ServerResults(e.stream, calls[i..]) == ServerResults(stream, calls)
    {
      ghost var rest := e.stream;
      var r, q;
      ghost var text, same;
      r, text := CallBuffered(l, d, calls[i]);
      q, same := CallUnbuffered(e, calls[i]);
      ResultsStep(stream, calls, i, buffered, rest);
      buffered, unbuffered := buffered + [(r, text)], unbuffered + [(q, same)];
    }
    ResultsEnd(stream, calls, buffered, e.stream);
  }

  lemma NoLines(room: nat)
    requires room > 0
    ensures Lines([], room) == []
  {
  }

  lemma CallIsLine(script: seq<Outcome>, now: seq<Outcome>, u: seq<byte>, maxlen: nat, r: int,
                   stored: seq<byte>, unread: seq<byte>)
    requires Call(script, now, u, maxlen, LibReturn(u, maxlen), r, stored, unread) && NoErrors(script) && maxlen >= 2
    ensures NoErrors(now) && (r == 0 <==> u == []) && r != -1 && (u == [] ==> unread == [])
    ensures u != [] ==> Taken(u, Room(maxlen)) <= |stored| && |unread| < |u|
    ensures u != [] ==> Lines(u, Room(maxlen)) == [stored[..Taken(u, Room(maxlen))]] + Lines(unread, Room(maxlen))
  {
    ErrorFree(script, now);
    ZeroMeansEnd(u, maxlen);
  }

  /** lib/readline.c until it returns 0: the pieces are the lines of the stream. */
  method ReadAll(stream: seq<byte>, chunks: seq<Outcome>, maxlen: nat) returns (ghost lines: seq<seq<byte>>, calls: nat)
    requires maxlen >= 2 && NoErrors(chunks)
    ensures lines == Lines(stream, Room(maxlen)) && Flatten(lines) == stream
    ensures calls == |Lines(stream, Room(maxlen))| + 1
  {
    hide Suffix, WentWell, JustFailed, Underway, Complete, Delivered, CutShort, Ended, Call, ServerCall, Taken, Why,
      LibReturn, ServerReturn, Rline.Valid, Rline.Unread, NoErrors, Lines, Flatten, Room;
    var l := new Rline();
    var d := new Descriptor(stream, chunks);
    var vptr := new byte[maxlen](_ => 0);
    lines, calls := [], 0;
    var r := 1;
    NothingBuffered(l, d);
    RoomIs(maxlen);
    LinesPartition(stream, Room(maxlen));
    NoLines(Room(maxlen));
    while r != 0
      invariant l.Valid() && NoErrors(d.script) && fresh(l) && fresh(l.buf) && fresh(d) && l.buf != vptr
      invariant lines + Lines(l.Unread(d), Room(maxlen)) == Lines(stream, Room(maxlen))
      invariant r == 0 ==> l.Unread(d) == []
      invariant calls == |lines| + if r == 0 then 1 else 0
      decreases |l.Unread(d)| + if r == 0 then 0 else 1
    {
      ghost var u, script := l.Unread(d), d.script;
      r := l.Readline(d, vptr, maxlen);
      calls := calls + 1;
      CallIsLine(script, d.script, u, maxlen, r, vptr[..], l.Unread(d));
      if r != 0 {
        lines := lines + [vptr[..Taken(u, Room(maxlen))]];
      }
    }
  }
}

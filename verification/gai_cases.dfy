/** What getaddrinfo (libgai) returns in each case: which socket type the caller names,
    and what the service is known for. */
module GaiCases {
  import opened Wrappers
  import opened GaiSpec

  /** Entries of one type that are not to be cloned, as `ga_aistruct` leaves them when the
      caller names that type. */
  predicate OfType(l: seq<Entry>, t: int) {
    forall k :: 0 <= k < |l| ==> !l[k].clone && l[k].socktype == t && Internet(l[k].family) && l[k].addr.Some?
  }

  /** A pass with that type fills in the port everywhere, and takes no memory. */
  lemma {:induction false} PortFillsIn(l: seq<Entry>, t: int, port: int, mem: nat)
    requires OfType(l, t)
    ensures var o := Port(l, Request(port, t), mem);
      && o.rc == |l| && |o.list| == |l|
      && forall k :: 0 <= k < |l| ==> o.list[k] == l[k].(addr := Some(Addr(l[k].addr.value.host, port)))
    decreases |l|
  {
    if l != [] {
      PortFillsIn(l[1..], t, port, mem);
      assert forall k :: 0 < k < |l| ==> l[k] == l[1..][k - 1];
    }
  }

  lemma {:induction false} PortFillsFirst(l: seq<Entry>, t: int, port: int, mem: nat)
    requires Unassigned(l)
    ensures var o := Port(l, Request(port, t), mem);
      && o.rc == |l| && |o.list| == |l|
      && forall k :: 0 <= k < |l| ==>
           o.list[k] == l[k].(socktype := t, addr := Some(Addr(l[k].addr.value.host, port)))
    decreases |l|
  {
    if l != [] {
      PortFillsFirst(l[1..], t, port, mem);
      assert forall k :: 0 < k < |l| ==> l[k] == l[1..][k - 1];
    }
  }

  lemma ServeOne(l: seq<Entry>, r: Request, mem: nat)
    ensures Serve(l, [r], mem) == Port(l, r, mem)
  {
    hide Port, Need;
    assert [r][1..] == [];
    if Port(l, r, mem).rc >= 0 {
      assert Serve(Port(l, r, mem).list, [], Left(l, mem)) == Outcome(Port(l, r, mem).list, 0);
    }
  }

  /** The port that a service has for a socket type, if it is known for it. */
  predicate KnownFor(serv: Service, t: int, port: int) {
    serv == Number(port) || (serv.Name? && t == 1 && serv.tcp == Some(port))
    || (serv.Name? && t == 2 && serv.udp == Some(port))
  }

  /** A caller who names a socket type gets each address once, with that type and the
      service's port for it... */
  lemma TypeNamed(h: Hints, hosts: seq<Host>, serv: Service, mem: nat, port: int)
    requires h.socktype != 0 && hosts != [] && forall k :: 0 <= k < |hosts| ==> Internet(hosts[k].family)
    requires KnownFor(serv, h.socktype, port)
    ensures var o := Serve(Listed(h, hosts), Requests(h.socktype, serv), mem);
      && ServeCode(h.socktype, o.rc) == 0 && |o.list| == |hosts|
      && forall i :: 0 <= i < |hosts| ==>
           o.list[i] == Entry(false, hosts[i].family, h.socktype, h.protocol, Some(Addr(hosts[i].address, port)))
  {
    hide Port;
    var l, r := Listed(h, hosts), Request(port, h.socktype);
    assert Requests(h.socktype, serv) == [r];
    ServeOne(l, r, mem);
    PortFillsIn(l, h.socktype, port, mem);
  }

  /** ...or, when it has none for that type, EAI_SERVICE and no port. */
  lemma TypeUnknown(h: Hints, hosts: seq<Host>, serv: Service, mem: nat)
    requires h.socktype != 0 && forall port :: !KnownFor(serv, h.socktype, port)
    ensures var o := Serve(Listed(h, hosts), Requests(h.socktype, serv), mem);
      ServeCode(h.socktype, o.rc) == 9 && o.list == Listed(h, hosts)
  {
    assert serv.Number? ==> KnownFor(serv, h.socktype, serv.port);
    assert serv.Name? && serv.tcp.Some? ==> h.socktype != 1 || KnownFor(serv, 1, serv.tcp.value);
    assert serv.Name? && serv.udp.Some? ==> h.socktype != 2 || KnownFor(serv, 2, serv.udp.value);
    assert Requests(h.socktype, serv) == [];
  }

  /** A caller who names none, and a name known for one of the protocols alone: each
      address once with that type. */
  lemma OneProtocol(h: Hints, hosts: seq<Host>, serv: Service, mem: nat, t: int, port: int)
    requires h.socktype == 0 && hosts != [] && forall k :: 0 <= k < |hosts| ==> Internet(hosts[k].family)
    requires (t == 1 && serv == Name(Some(port), None)) || (t == 2 && serv == Name(None, Some(port)))
    ensures var o := Serve(Listed(h, hosts), Requests(0, serv), mem);
      && ServeCode(0, o.rc) == 0 && |o.list| == |hosts|
      && forall i :: 0 <= i < |hosts| ==>
           o.list[i] == Entry(true, hosts[i].family, t, h.protocol, Some(Addr(hosts[i].address, port)))
  {
    hide Port;
    var l, r := Listed(h, hosts), Request(port, t);
    assert Requests(0, serv) == [r];
    ServeOne(l, r, mem);
    PortFillsFirst(l, t, port, mem);
  }

  /** A name known for neither: EAI_NONAME and no port. */
  lemma NoProtocol(h: Hints, hosts: seq<Host>, mem: nat)
    ensures var o := Serve(Listed(h, hosts), Requests(0, Name(None, None)), mem);
      ServeCode(0, o.rc) == 8 && o.list == Listed(h, hosts)
  {
    assert Requests(0, Name(None, None)) == [];
  }

  /** Known for both, without a socket type: the call fails for want of memory exactly when
      two allocations for each address are too many. */
  lemma MemoryExactly(h: Hints, hosts: seq<Host>, serv: Service, mem: nat, tcp: int, udp: int)
    requires h.socktype == 0 && hosts != [] && forall k :: 0 <= k < |hosts| ==> Internet(hosts[k].family)
    requires (serv == Number(tcp) && udp == tcp) || serv == Name(Some(tcp), Some(udp))
    ensures ServeCode(0, Serve(Listed(h, hosts), Requests(0, serv), mem).rc) == (if mem < 2 * |hosts| then 6 else 0)
  {
    hide Port, Groups, Need;
    var l, r1, r2 := Listed(h, hosts), Request(tcp, SOCK_STREAM), Request(udp, SOCK_DGRAM);
    assert Requests(0, serv) == [r1, r2] && [r1, r2][1..] == [r2];
    PortFirst(l, r1);
    PortEnough(l, r1, 0, mem);
    TwoTypes(r1, r2);
    PortGroups(l, [r1], r2);
    var g := Groups(l, [r1]);
    ServeOne(g, r2, mem);
    PortFailsExactly(g, r2, mem);
    if mem >= 2 * |l| {
      PortEnough(g, r2, 2 * |l|, mem);
    }
  }

  lemma TwoTypes(r1: Request, r2: Request)
    requires r1.socktype == SOCK_STREAM && r2.socktype == SOCK_DGRAM
    ensures DistinctTypes([r1] + [r2])
  {
  }

  /** Whatever a pass has allocated is in the list, when it fails too: a clone for every two
      allocations, and one without an address for an odd one. */
  lemma {:induction false} NothingLost(l: seq<Entry>, r: Request, mem: nat)
    ensures var o := Port(l, r, mem);
      |o.list| == |l| + if o.rc >= 0 then Need(l) / 2 else (mem + 1) / 2
    decreases |l|
  {
    PortFailsExactly(l, r, mem);
    if l != [] {
      var used := Cost(l[0]);
      NeedEven(l[1..]);
      if mem >= used {
        NothingLost(l[1..], r, mem - used);
        PortFailsExactly(l[1..], r, mem - used);
      }
    }
  }

  lemma {:induction false} NeedEven(l: seq<Entry>)
    ensures Need(l) % 2 == 0
    decreases |l|
  {
    if l != [] {
      NeedEven(l[1..]);
    }
  }

  /** `ga_aistruct` fails exactly when memory runs out for the entry or for the address of a
      family it knows, or when a Unix domain path does not fit; then the entry is there all
      the same, without an address, unless it could not be allocated. */
  lemma AistructExactly(h: Hints, host: string, family: int, mem: nat, room: nat)
    ensures var a := Aistruct(h, host, family, mem, room);
      var known := family == 2 || family == 10 || family == 1;
      var long := family == 1 && |host| >= room;
      && (a.code == 6 <==> mem == 0 || (mem == 1 && known && !long)) && (a.code == 9 <==> mem > 0 && long)
      && (a.code != 0 ==> a.code == 6 || a.code == 9) && (a.entry.None? <==> mem == 0)
      && (mem > 0 ==>
        && a.entry.value.(addr := None) == Entry(h.socktype == 0, family, h.socktype, h.protocol, None)
        && a.entry.value.addr == if a.code == 0 && known then Some(Addr(host, 0)) else None)
  {
  }

  /** Entries of a family without ports get a type and count for nothing. */
  lemma {:induction false} PortElsewhere(l: seq<Entry>, r: Request, mem: nat)
    requires forall k :: 0 <= k < |l| ==> !Internet(l[k].family) && (l[k].clone ==> l[k].socktype == 0)
    ensures var o := Port(l, r, mem);
      && o.rc == 0 && |o.list| == |l|
      && forall k :: 0 <= k < |l| ==> o.list[k] == if l[k].clone then l[k].(socktype := r.socktype) else l[k]
    decreases |l|
  {
    if l != [] {
      PortElsewhere(l[1..], r, mem);
      assert forall k :: 0 < k < |l| ==> l[k] == l[1..][k - 1];
    }
  }
}

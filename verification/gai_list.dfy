/** The linked list of getaddrinfo in memory: `ga_aistruct`, `ga_clone`, `ga_port` and
    `ga_serv` (libgai), each proved to do what `GaiSpec` describes. */
module GaiList {
  import opened Wrappers
  import opened GaiSpec

  class SockAddr {
    var host: string
    var port: int

    constructor (host: string, port: int)
      ensures this.host == host && this.port == port
    {
      this.host, this.port := host, port;
    }
  }

  class AddrInfo {
    var clone: bool        // AI_CLONE in ai_flags
    var family: int
    var socktype: int
    var protocol: int
    var addr: SockAddr?
    var next: AddrInfo?

    constructor ()         // calloc
      ensures !clone && family == 0 && socktype == 0 && protocol == 0 && addr == null && next == null
    {
      clone, family, socktype, protocol, addr, next := false, 0, 0, 0, null, null;
    }

    ghost function Value(): Entry
      reads this, addr
    {
      Entry(clone, family, socktype, protocol, if addr == null then None else Some(Addr(addr.host, addr.port)))
    }
  }

  ghost predicate LinkAt(ns: seq<AddrInfo>, i: nat)
    requires i < |ns|
    reads ns
  {
    ns[i].next == if i + 1 < |ns| then ns[i + 1] else null
  }

  ghost predicate Linked(head: AddrInfo?, ns: seq<AddrInfo>)
    reads ns
  {
    && head == (if ns == [] then null else ns[0])
    && forall i :: 0 <= i < |ns| ==> LinkAt(ns, i)
  }

  /** No node and no socket address occurs twice. */
  ghost predicate Unshared(ns: seq<AddrInfo>)
    reads ns
  {
    forall i, j :: 0 <= i < j < |ns| ==> ns[i] != ns[j] && (ns[i].addr == null || ns[i].addr != ns[j].addr)
  }

  ghost predicate Within(ns: seq<AddrInfo>, repr: set<object>)
    reads repr
  {
    forall i :: 0 <= i < |ns| ==> ns[i] in repr && (ns[i].addr != null ==> ns[i].addr in repr)
  }

  ghost predicate Values(ns: seq<AddrInfo>, es: seq<Entry>, repr: set<object>)
    requires Within(ns, repr)
    reads repr
  {
    |ns| == |es| && forall i :: 0 <= i < |ns| ==> ns[i].Value() == es[i]
  }

  /** The list at `head` consists of the nodes `ns`, unshared and inside `repr`, and says `es`. */
  ghost predicate Shape(head: AddrInfo?, ns: seq<AddrInfo>, es: seq<Entry>, repr: set<object>)
    reads repr
  {
    Within(ns, repr) && Linked(head, ns) && Unshared(ns) && Values(ns, es, repr)
  }

  /** A new node behind `ai` with its own copy of the socket address; null when an
      allocation fails, in which case a node without address may have been inserted. */
  method GaClone(ai: AddrInfo, mem: nat) returns (new_: AddrInfo?, ghost made: AddrInfo?)
    requires ai.addr != null
    modifies ai`next
    ensures mem == 0 <==> made == null
    ensures made == null ==> ai.next == old(ai.next)
    ensures made != null ==> fresh(made) && ai.next == made && made.next == old(ai.next)
    ensures mem < 2 ==> new_ == null
    ensures mem >= 2 ==> new_ == made && made.addr != null && fresh(made.addr) && made.Value() == Clone(ai.Value())
    ensures mem == 1 ==> made.Value() == Clone(ai.Value()).(addr := None)
  {
    if mem == 0 {
      return null, null;
    }
    var ni := new AddrInfo();
    ni.next := ai.next;
    ai.next := ni;
    ni.clone := false;
    ni.family := ai.family;
    ni.socktype := ai.socktype;
    ni.protocol := ai.protocol;
    if mem == 1 {
      return null, ni;
    }
    ni.addr := new SockAddr(ai.addr.host, ai.addr.port);
    return ni, ni;
  }

  /** Lines 47-62 of ga_port.c on one node. */
  method AssignNode(ai: AddrInfo, r: Request) returns (found: nat)
    requires ai.addr != null
    modifies ai`socktype, ai.addr`port
    ensures ai.Value() == Assign(old(ai.Value()), r) && found == Found(old(ai.Value()))
  {
    ai.socktype := r.socktype;
    found := 0;
    if ai.family == AF_INET || ai.family == AF_INET6 {
      ai.addr.port := r.port;
      found := 1;
    }
  }

  /** The node's assignment within its list. */
  method AssignAt(head: AddrInfo?, ghost ns: seq<AddrInfo>, ghost es: seq<Entry>, ghost repr: set<object>,
                  ai: AddrInfo, ghost i: nat, r: Request) returns (found: nat)
    requires Shape(head, ns, es, repr) && i < |ns| && ns[i] == ai && ai.addr != null
    modifies repr
    ensures Shape(head, ns, es[i := Assign(es[i], r)], repr) && found == Found(es[i])
    ensures ai.next == old(ai.next) && ai.addr == old(ai.addr)
  {
    hide Assign;
    found := AssignNode(ai, r);
    forall k | 0 <= k < |ns| ensures LinkAt(ns, k) && ns[k].addr == old(ns[k].addr) {
      assert old(LinkAt(ns, k)) && ns[k].next == old(ns[k].next);
    }
    assert Linked(head, ns) && Within(ns, repr);
    assert Unshared(ns);
    forall k | 0 <= k < |ns| ensures ns[k].Value() == es[i := Assign(es[i], r)][k] {
      assert old(ns[k].Value()) == es[k];
    }
  }

  function Insert<T>(s: seq<T>, i: nat, x: T): (r: seq<T>)
    requires i <= |s|
    ensures |r| == |s| + 1
    ensures forall k :: 0 <= k < |r| ==> r[k] == if k < i then s[k] else if k == i then x else s[k - 1]
  {
    s[..i] + [x] + s[i..]
  }

  lemma InsertLinked(head: AddrInfo?, ns: seq<AddrInfo>, i: nat, m: AddrInfo)
    requires i < |ns| && head == ns[0]
    requires m.next == (if i + 1 < |ns| then ns[i + 1] else null) && ns[i].next == m
    requires forall k :: 0 <= k < |ns| && k != i ==> LinkAt(ns, k)
    ensures Linked(head, Insert(ns, i + 1, m))
  {
    var t := Insert(ns, i + 1, m);
    assert t[0] == ns[0];
    forall k | 0 <= k < |t| ensures LinkAt(t, k) {
      if k < i {
        assert LinkAt(ns, k);
      } else if k > i + 1 {
        assert LinkAt(ns, k - 1);
      }
    }
  }

  lemma InsertUnshared(ns: seq<AddrInfo>, i: nat, m: AddrInfo)
    requires i < |ns| && Unshared(ns)
    requires forall k :: 0 <= k < |ns| ==> ns[k] != m && (m.addr == null || m.addr != ns[k].addr)
    ensures Unshared(Insert(ns, i + 1, m))
  {
    var t := Insert(ns, i + 1, m);
    forall p, q | 0 <= p < q < |t| ensures t[p] != t[q] && (t[p].addr == null || t[p].addr != t[q].addr) {
      var p', q' := if p <= i then p else p - 1, if q <= i then q else q - 1;
      assert ns[p'] == ns[p'] && ns[q'] == ns[q'];
    }
  }

  lemma InsertValues(ns: seq<AddrInfo>, es: seq<Entry>, repr: set<object>, i: nat, m: AddrInfo)
    requires i < |ns| && Within(ns, repr) && Values(ns, es, repr)
    ensures var repr' := repr + {m} + (if m.addr == null then {} else {m.addr});
      && Within(Insert(ns, i + 1, m), repr')
      && Values(Insert(ns, i + 1, m), Insert(es, i + 1, m.Value()), repr')
  {
  }

  /** The clone within the list. */
  method CloneAt(head: AddrInfo?, ghost ns: seq<AddrInfo>, ghost es: seq<Entry>, ghost repr: set<object>,
                 ai: AddrInfo, ghost i: nat, mem: nat)
    returns (new_: AddrInfo?, ghost ns': seq<AddrInfo>, ghost es': seq<Entry>, ghost repr': set<object>)
    requires Shape(head, ns, es, repr) && i < |ns| && ns[i] == ai && ai.addr != null
    modifies repr
    ensures fresh(repr' - repr) && repr <= repr' && Shape(head, ns', es', repr')
    ensures mem == 0 ==> new_ == null && es' == es
    ensures mem == 1 ==> new_ == null && es' == Insert(es, i + 1, Clone(es[i]).(addr := None))
    ensures mem >= 2 ==> new_ != null && new_.addr != null && |ns'| == |ns| + 1 && ns'[i + 1] == new_
    ensures mem >= 2 ==> es' == Insert(es, i + 1, Clone(es[i]))
  {
    hide Clone;
    ghost var made;
    new_, made := GaClone(ai, mem);
    ns', es', repr' := ns, es, repr;
    assert forall k :: 0 <= k < |ns| ==> ns[k].addr == old(ns[k].addr);
    assert forall k :: 0 <= k < |ns| ==> ns[k].Value() == es[k];
    forall k | 0 <= k < |ns| && k != i ensures LinkAt(ns, k) {
      assert old(LinkAt(ns, k)) && ns[k].next == old(ns[k].next);
    }
    if mem > 0 {
      assert old(LinkAt(ns, i));
      ns' := Insert(ns, i + 1, made);
      es' := Insert(es, i + 1, made.Value());
      repr' := repr + {made} + (if made.addr == null then {} else {made.addr});
      InsertValues(ns, es, repr, i, made);
      InsertLinked(head, ns, i, made);
      InsertUnshared(ns, i, made);
    }
  }

  lemma NodeAt(head: AddrInfo?, ns: seq<AddrInfo>, es: seq<Entry>, repr: set<object>, i: nat)
    requires Shape(head, ns, es, repr) && i < |ns|
    ensures |ns| == |es| && ns[i].Value() == es[i] && ns[i].next == if i + 1 < |ns| then ns[i + 1] else null
  {
    assert LinkAt(ns, i);
  }

  /** Entries `i..` still have to be visited. */
  ghost predicate Ahead(ns: seq<AddrInfo>, i: nat, es: seq<Entry>, ai: AddrInfo?) {
    && i <= |ns| == |es|
    && ai == (if i < |ns| then ns[i] else null)
    && forall k :: i <= k < |es| ==> es[k].addr.Some?
  }

  /** The whole pass from entry `i` on. */
  ghost function PortFrom(es: seq<Entry>, i: nat, n: nat, r: Request, mem: nat): Outcome
    requires i <= |es|
  {
    Extend(es[..i], n, Port(es[i..], r, mem))
  }

  lemma PortFromSkip(es: seq<Entry>, i: nat, n: nat, r: Request, mem: nat)
    requires i < |es| && !es[i].clone && es[i].socktype != r.socktype
    ensures PortFrom(es, i, n, r, mem) == PortFrom(es, i + 1, n, r, mem)
    ensures Need(es[i..]) == Need(es[i + 1..])
  {
    assert es[i..][1..] == es[i + 1..];
    assert es[..i] + ([es[i]] + Port(es[i + 1..], r, mem).list) == es[..i + 1] + Port(es[i + 1..], r, mem).list;
  }

  lemma PortFromAssign(es: seq<Entry>, i: nat, n: nat, r: Request, mem: nat)
    requires i < |es| && (if es[i].clone then es[i].socktype == 0 else es[i].socktype == r.socktype)
    ensures PortFrom(es, i, n, r, mem)
         == PortFrom(es[i := Assign(es[i], r)], i + 1, n + Found(es[i]), r, mem)
    ensures Need(es[i..]) == Need(es[i := Assign(es[i], r)][i + 1..])
  {
    hide Assign;
    var fs := es[i := Assign(es[i], r)];
    assert es[i..][1..] == es[i + 1..] == fs[i + 1..];
    var p := Port(es[i + 1..], r, mem).list;
    assert es[..i] + ([Assign(es[i], r)] + p) == fs[..i + 1] + p;
  }

  lemma PortFromClone(es: seq<Entry>, i: nat, n: nat, r: Request, mem: nat)
    requires i < |es| && es[i].clone && es[i].socktype != 0 && mem >= 2
    ensures var c := Insert(es, i + 1, Clone(es[i]));
      && PortFrom(es, i, n, r, mem)
         == PortFrom(c[i + 1 := Assign(c[i + 1], r)], i + 2, n + Found(es[i]), r, mem - 2)
      && Found(c[i + 1]) == Found(es[i])
      && Need(es[i..]) == 2 + Need(c[i + 1 := Assign(c[i + 1], r)][i + 2..])
  {
    hide Assign;
    var c := Insert(es, i + 1, Clone(es[i]));
    var fs := c[i + 1 := Assign(c[i + 1], r)];
    assert es[i..][1..] == es[i + 1..] == fs[i + 2..];
    var p := Port(es[i + 1..], r, mem - 2).list;
    assert es[..i] + ([es[i], Assign(Clone(es[i]), r)] + p) == fs[..i + 2] + p;
  }

  lemma PortFromFails(es: seq<Entry>, i: nat, n: nat, r: Request, mem: nat)
    requires i < |es| && es[i].clone && es[i].socktype != 0 && mem < 2
    ensures PortFrom(es, i, n, r, mem)
         == Outcome(if mem == 0 then es else Insert(es, i + 1, Clone(es[i]).(addr := None)), -1)
  {
    hide Clone;
    assert es[i..][1..] == es[i + 1..];
    assert es == es[..i] + es[i..];
    assert es[..i] + ([es[i], Clone(es[i]).(addr := None)] + es[i + 1..])
        == Insert(es, i + 1, Clone(es[i]).(addr := None));
  }

  lemma PortFromStart(es: seq<Entry>, r: Request, mem: nat)
    ensures PortFrom(es, 0, 0, r, mem) == Port(es, r, mem) && Need(es[0..]) == Need(es)
  {
    assert es[0..] == es;
  }

  lemma PortFromEnd(es: seq<Entry>, n: nat, r: Request, mem: nat)
    ensures PortFrom(es, |es|, n, r, mem) == Outcome(es, n) && Need(es[|es|..]) == 0
  {
    assert es[|es|..] == [] && es[..|es|] + [] == es;
  }

  /** One round of the walk: skip the node, fill it in, or clone it and fill in the clone. */
  method PortNode(head: AddrInfo?, ai: AddrInfo, r: Request, mem: nat, ghost i: nat, ghost n: nat,
                  ghost ns: seq<AddrInfo>, ghost es: seq<Entry>, ghost repr: set<object>)
    returns (ok: bool, next: AddrInfo?, found: nat, left: nat,
             ghost i': nat, ghost ns': seq<AddrInfo>, ghost es': seq<Entry>, ghost repr': set<object>)
    requires Shape(head, ns, es, repr) && Ahead(ns, i, es, ai)
    modifies repr
    ensures repr <= repr' && fresh(repr' - repr) && Shape(head, ns', es', repr')
    ensures ok ==> Ahead(ns', i', es', next) && |ns'| - i' < |ns| - i
    ensures ok ==> PortFrom(es', i', n + found, r, left) == PortFrom(es, i, n, r, mem)
    ensures ok ==> left - Need(es'[i'..]) == mem - Need(es[i..])
    ensures !ok ==> PortFrom(es, i, n, r, mem) == Outcome(es', -1)
  {
    hide Port, Need, PortFrom, Clone, Insert, Shape, Assign, Found;
    ok, found, left := true, 0, mem;
    i', ns', es', repr' := i, ns, es, repr;
    NodeAt(head, ns, es, repr, i);
    var at := ai;
    if ai.clone {
      if ai.socktype != 0 {
        var new_;
        new_, ns', es', repr' := CloneAt(head, ns, es, repr, ai, i, mem);
        if new_ == null {
          PortFromFails(es, i, n, r, mem);
          return false, null, 0, 0, i, ns', es', repr';
        }
        PortFromClone(es, i, n, r, mem);
        forall k | i + 2 <= k < |es'| ensures es'[k].addr.Some? {
          assert es'[k] == es[k - 1];
        }
        at, i', left := new_, i + 1, mem - 2;
      } else {
        PortFromAssign(es, i, n, r, mem);
      }
    } else if ai.socktype != r.socktype {
      PortFromSkip(es, i, n, r, mem);
      next, i' := ai.next, i + 1;
      return;
    } else {
      PortFromAssign(es, i, n, r, mem);
    }
    NodeAt(head, ns', es', repr', i');
    found := AssignAt(head, ns', es', repr', at, i', r);
    es' := es'[i' := Assign(es'[i'], r)];
    next, i' := at.next, i' + 1;
  }

  /** The walk terminates although clones are inserted in front of it, and leaves what
      `Port` says in unshared nodes and addresses. `mem` counts the allocations that
      succeed. */
  method GaPort(head: AddrInfo?, r: Request, mem: nat,
                ghost ns: seq<AddrInfo>, ghost es: seq<Entry>, ghost repr: set<object>)
    returns (nfound: int, left: nat, ghost ns': seq<AddrInfo>, ghost es': seq<Entry>, ghost repr': set<object>)
    requires Shape(head, ns, es, repr) && forall k :: 0 <= k < |es| ==> es[k].addr.Some?
    modifies repr
    ensures repr <= repr' && fresh(repr' - repr) && Shape(head, ns', es', repr')
    ensures Outcome(es', nfound) == Port(es, r, mem)
    ensures nfound >= 0 ==> left == Left(es, mem)
  {
    hide Port, Need, PortFrom;
    nfound, left := 0, mem;
    ns', es', repr' := ns, es, repr;
    var ai := head;
    assert Ahead(ns, 0, es, ai) by {
      if ns != [] { NodeAt(head, ns, es, repr, 0); }
    }
    ghost var i: nat := 0;
    PortFromStart(es, r, mem);
    while ai != null
      invariant repr <= repr' && fresh(repr' - repr) && Shape(head, ns', es', repr')
      invariant Ahead(ns', i, es', ai) && nfound >= 0
      invariant PortFrom(es', i, nfound, r, left) == Port(es, r, mem)
      invariant left - Need(es'[i..]) == mem - Need(es)
      decreases |ns'| - i
    {
      hide Shape;
      var ok: bool, found: nat;
      ok, ai, found, left, i, ns', es', repr' := PortNode(head, ai, r, left, i, nfound, ns', es', repr');
      if !ok {
        nfound := -1;
        return;
      }
      nfound := nfound + found;
    }
    PortFromEnd(es', nfound, r, left);
  }

  /** One call of `ga_port` in `ga_serv`, with what is still to come in `rest`. */
  method Pass(head: AddrInfo?, r: Request, nfound: nat, mem: nat, ghost rest: seq<Request>,
              ghost ns: seq<AddrInfo>, ghost es: seq<Entry>, ghost repr: set<object>)
    returns (rc: int, left: nat, ghost ns': seq<AddrInfo>, ghost es': seq<Entry>, ghost repr': set<object>)
    requires Shape(head, ns, es, repr) && forall k :: 0 <= k < |es| ==> es[k].addr.Some?
    modifies repr
    ensures repr <= repr' && fresh(repr' - repr) && Shape(head, ns', es', repr')
    ensures rc >= 0 ==> forall k :: 0 <= k < |es'| ==> es'[k].addr.Some?
    ensures rc >= 0 ==> ServeFrom(nfound, es, [r] + rest, mem) == ServeFrom(nfound + rc, es', rest, left)
    ensures rc < 0 ==> ServeFrom(nfound, es, [r] + rest, mem) == Outcome(es', -1)
  {
    hide Shape, Port, Left, ServeFrom;
    rc, left, ns', es', repr' := GaPort(head, r, mem, ns, es, repr);
    assert Port(es, r, mem).list == es' && Port(es, r, mem).rc == rc;
    ServeFromStep(nfound, es, r, rest, mem);
    if rc >= 0 {
      PortPresent(es, r, mem);
    }
  }

  /** The passes that the service asks for, one after the other. */
  method GaServ(head: AddrInfo?, hint: int, serv: Service, mem: nat,
                ghost ns: seq<AddrInfo>, ghost es: seq<Entry>, ghost repr: set<object>)
    returns (code: int, ghost ns': seq<AddrInfo>, ghost es': seq<Entry>, ghost repr': set<object>)
    requires Shape(head, ns, es, repr) && forall k :: 0 <= k < |es| ==> es[k].addr.Some?
    modifies repr
    ensures repr <= repr' && fresh(repr' - repr) && Shape(head, ns', es', repr')
    ensures var o := Serve(es, Requests(hint, serv), mem); es' == o.list && code == ServeCode(hint, o.rc)
  {
    hide Shape, Port, Left, Serve;
    ghost var rs := Requests(hint, serv);
    assert ServeFrom(0, es, rs, mem) == Serve(es, rs, mem);
    var nfound: nat := 0;
    var rc: int;
    var left := mem;
    ns', es', repr' := ns, es, repr;
    match serv {
      case Number(port) =>
        if hint != 0 {
          assert rs == [Request(port, hint)] + [];
          rc, left, ns', es', repr' := Pass(head, Request(port, hint), 0, left, [], ns', es', repr');
          if rc < 0 { return EAI_MEMORY, ns', es', repr'; }
          nfound := rc;
        } else {
          assert rs == [Request(port, SOCK_STREAM)] + [Request(port, SOCK_DGRAM)];
          ghost var rest := [Request(port, SOCK_DGRAM)];
          rc, left, ns', es', repr' := Pass(head, Request(port, SOCK_STREAM), 0, left, rest, ns', es', repr');
          if rc < 0 { return EAI_MEMORY, ns', es', repr'; }
          nfound := rc;
          assert [Request(port, SOCK_DGRAM)] == [Request(port, SOCK_DGRAM)] + [];
          rc, left, ns', es', repr' := Pass(head, Request(port, SOCK_DGRAM), nfound, left, [], ns', es', repr');
          if rc < 0 { return EAI_MEMORY, ns', es', repr'; }
          nfound := nfound + rc;
        }
      case Name(tcp, udp) =>
        ghost var rest := rs;
        if hint == 0 || hint == SOCK_STREAM {
          if tcp.Some? {
            rest := rs[1..];
            assert rs == [Request(tcp.value, SOCK_STREAM)] + rest;
            rc, left, ns', es', repr' :=
              Pass(head, Request(tcp.value, SOCK_STREAM), nfound, left, rest, ns', es', repr');
            if rc < 0 { return EAI_MEMORY, ns', es', repr'; }
            nfound := nfound + rc;
          }
        }
        if hint == 0 || hint == SOCK_DGRAM {
          if udp.Some? {
            assert rest == [Request(udp.value, SOCK_DGRAM)] + [];
            rest := [];
            rc, left, ns', es', repr' := Pass(head, Request(udp.value, SOCK_DGRAM), nfound, left, [], ns', es', repr');
            if rc < 0 { return EAI_MEMORY, ns', es', repr'; }
            nfound := nfound + rc;
          }
        }
        assert rest == [];
    }
    ServeFromEnd(nfound, es', left);
    if nfound == 0 {
      return if hint == 0 then EAI_NONAME else EAI_SERVICE, ns', es', repr';
    }
    return 0, ns', es', repr';
  }

  /** The list of `ns` with `m` linked behind it. */
  ghost predicate Hooked(head: AddrInfo?, ns: seq<AddrInfo>, es: seq<Entry>, repr: set<object>, m: AddrInfo)
    reads repr
  {
    && m !in repr && Within(ns, repr) && Unshared(ns) && Values(ns, es, repr)
    && (forall k :: 0 <= k < |ns| - 1 ==> LinkAt(ns, k))
    && if ns == [] then head == m else head == ns[0] && ns[|ns| - 1].next == m
  }

  lemma AppendShape(head: AddrInfo?, ns: seq<AddrInfo>, es: seq<Entry>, repr: set<object>, m: AddrInfo)
    requires Hooked(head, ns, es, repr, m) && m.next == null && (m.addr == null || m.addr !in repr)
    ensures Shape(head, ns + [m], es + [m.Value()], repr + {m} + (if m.addr == null then {} else {m.addr}))
  {
    var t := ns + [m];
    forall k | 0 <= k < |t| ensures LinkAt(t, k) {
      assert k < |ns| - 1 ==> LinkAt(ns, k);
    }
    assert Unshared(t);
  }

  /** Everything but the link of a node just allocated. */
  method Fill(ai: AddrInfo, h: Hints, address: string, family: int, mem: nat, room: nat) returns (code: int)
    requires mem > 0 && !ai.clone && ai.addr == null
    modifies ai
    ensures ai.next == old(ai.next) && (ai.addr == null || fresh(ai.addr))
    ensures Appended(Some(ai.Value()), code) == Aistruct(h, address, family, mem, room)
  {
    ai.socktype := h.socktype;
    if ai.socktype == 0 {
      ai.clone := true;
    }
    ai.protocol := h.protocol;
    ai.family := family;
    code := 0;
    if family == AF_INET || family == AF_INET6 {
      if mem == 1 {
        code := EAI_MEMORY;
      } else {
        ai.addr := new SockAddr(address, 0);
      }
    } else if family == AF_LOCAL {
      if |address| >= room {
        code := EAI_SERVICE;
      } else if mem == 1 {
        code := EAI_MEMORY;
      } else {
        ai.addr := new SockAddr(address, 0);
      }
    }
  }

  /** The list that getaddrinfo is building: `last` is the node whose `ai_next` the tail
      pointer designates, null while it still designates the list head. */
  class AiList {
    var head: AddrInfo?
    var last: AddrInfo?

    constructor ()
      ensures Building([], [], {}) && head == null
    {
      head, last := null, null;
    }

    ghost predicate Building(ns: seq<AddrInfo>, es: seq<Entry>, repr: set<object>)
      reads this, repr
    {
      && this !in repr && Shape(head, ns, es, repr)
      && last == if ns == [] then null else ns[|ns| - 1]
    }

    /** Store the node through the tail pointer, and advance that. */
    method Link(ai: AddrInfo, ghost ns: seq<AddrInfo>, ghost es: seq<Entry>, ghost repr: set<object>)
      requires Building(ns, es, repr) && ai !in repr
      modifies this, repr
      ensures last == ai && Hooked(head, ns, es, repr, ai)
    {
      if last == null {
        head := ai;
      } else {
        last.next := ai;
      }
      last := ai;
      assert forall k :: 0 <= k < |ns| ==> ns[k].addr == old(ns[k].addr);
      forall k | 0 <= k < |ns| ensures ns[k].Value() == es[k] && (k < |ns| - 1 ==> LinkAt(ns, k)) {
        assert old(ns[k].Value()) == es[k] && old(LinkAt(ns, k));
      }
    }

    /** Append a node and fill it in as far as memory allows. */
    method GaAistruct(h: Hints, address: string, family: int, mem: nat, room: nat,
                      ghost ns: seq<AddrInfo>, ghost es: seq<Entry>, ghost repr: set<object>)
      returns (code: int, ghost ns': seq<AddrInfo>, ghost es': seq<Entry>, ghost repr': set<object>)
      requires Building(ns, es, repr)
      modifies this, repr
      ensures repr <= repr' && fresh(repr' - repr) && Building(ns', es', repr')
      ensures var a := Aistruct(h, address, family, mem, room);
        code == a.code && es' == if a.entry.Some? then es + [a.entry.value] else es
    {
      hide Shape, Hooked;
      if mem == 0 {
        return EAI_MEMORY, ns, es, repr;
      }
      var ai := new AddrInfo();
      Link(ai, ns, es, repr);
      code := Fill(ai, h, address, family, mem, room);
      AppendShape(head, ns, es, repr, ai);
      ns', es' := ns + [ai], es + [ai.Value()];
      repr' := repr + {ai} + (if ai.addr == null then {} else {ai.addr});
    }
  }

  lemma EmptyList(head: AddrInfo?, ns: seq<AddrInfo>, es: seq<Entry>, repr: set<object>)
    requires Shape(head, ns, es, repr)
    ensures head == null <==> |es| == 0
  {
  }

  /** getaddrinfo from the addresses found to the finished list: one entry for each
      address, then the ports of the service. */
  method GetAddrInfo(h: Hints, hosts: seq<Host>, serv: Service, mem: nat, room: nat)
    returns (code: int, head: AddrInfo?, ghost ns: seq<AddrInfo>, ghost es: seq<Entry>, ghost repr: set<object>)
    requires forall k :: 0 <= k < |hosts| ==> Internet(hosts[k].family)
    ensures fresh(repr) && Shape(head, ns, es, repr)
    ensures hosts == [] ==> code == EAI_NONAME
    ensures hosts != [] && mem < 2 * |hosts| ==> code == EAI_MEMORY
    ensures hosts != [] && mem >= 2 * |hosts| ==>
      var o := Serve(Listed(h, hosts), Requests(h.socktype, serv), mem - 2 * |hosts|);
      es == o.list && code == ServeCode(h.socktype, o.rc)
  {
    hide Serve, Shape, ServeCode, Aistruct;
    var list := new AiList();
    ns, es, repr := [], [], {};
    var left := mem;
    assert Listed(h, []) == [];
    for i := 0 to |hosts|
      invariant list !in repr && fresh(repr) && fresh(list) && list.Building(ns, es, repr)
      invariant es == Listed(h, hosts[..i]) && left == mem - 2 * i
    {
      var x := hosts[i];
      ListedSnoc(h, hosts[..i], x, room);
      AistructShort(h, x, left, room);
      assert hosts[..i] + [x] == hosts[..i + 1];
      code, ns, es, repr := list.GaAistruct(h, x.address, x.family, left, room, ns, es, repr);
      if code != 0 {
        head := list.head;
        return;
      }
      left := left - 2;
    }
    head := list.head;
    EmptyList(head, ns, es, repr);
    if head == null {
      code := EAI_NONAME;
      return;
    }
    assert hosts[..|hosts|] == hosts;
    code, ns, es, repr := GaServ(head, h.socktype, serv, left, ns, es, repr);
  }
}

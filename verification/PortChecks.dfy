/** The port-conflict checks: what each one decides, and the loops that decide it. */
module PortChecks {
  import opened Wrappers
  import opened PortGrammar
  import opened Model

  // ---------------------------------------------------------------------------
  // Vocabulary
  // ---------------------------------------------------------------------------

  predicate DoPortRangesOverlap(a: PortRange, b: PortRange)
  {
    a.start <= b.end && a.end >= b.start
  }

  predicate Parses(port: string)
  {
    ParsePortRange(port).Success?
  }

  function RangeOf(port: string): PortRange
    requires Parses(port)
  {
    ParsePortRange(port).value
  }

  /** Two port strings that both parse and share a port number. */
  predicate Clash(a: string, b: string)
  {
    Parses(a) && Parses(b) && DoPortRangesOverlap(RangeOf(a), RangeOf(b))
  }

  /** The overlap test is the existence of a shared port number. */
  lemma {:induction false} OverlapMeansSharedPort(a: string, b: string)
    ensures Clash(a, b) <==> Parses(a) && Parses(b) && exists n :: InRange(n, RangeOf(a)) && InRange(n, RangeOf(b))
  {
    if Clash(a, b) {
      var ra, rb := RangeOf(a), RangeOf(b);
      var n := if ra.start <= rb.start then rb.start else ra.start;
      assert InRange(n, ra) && InRange(n, rb);
    }
  }

  lemma {:induction false} PortEighty()
    ensures Parses("80") && RangeOf("80") == PortRange(80, 80)
  {
    assert Decimal(8) == "8";
    assert Decimal(80) == Decimal(8) + ['0'] == "80";
    ParseOfRendered(80, 80);
  }

  predicate AllParse(cs: seq<PortConfig>)
  {
    forall i :: 0 <= i < |cs| ==> Parses(cs[i].port)
  }

  predicate DisjointWithin(cs: seq<PortConfig>)
  {
    forall i, j :: 0 <= i < j < |cs| ==> !Clash(cs[i].port, cs[j].port)
  }

  predicate DisjointBetween(cs: seq<PortConfig>, ds: seq<PortConfig>)
  {
    forall i, j :: 0 <= i < |cs| && 0 <= j < |ds| ==> !Clash(cs[i].port, ds[j].port)
  }

  predicate AllIngressParse(ports: seq<IngressPort>)
  {
    forall i :: 0 <= i < |ports| ==> Parses(ports[i].port)
  }

  // ---------------------------------------------------------------------------
  // What the checks decide
  // ---------------------------------------------------------------------------

  predicate KnownProtocol(protocol: string)
  {
    protocol == PROTOCOL_TCP || protocol == PROTOCOL_UDP
  }

  /** A service whose ports all parse and do not overlap within a protocol. */
  predicate NoDuplicates(ports: seq<IngressPort>)
  {
    && AllIngressParse(ports)
    && forall i, j :: 0 <= i < j < |ports| && ports[i].protocol == ports[j].protocol && KnownProtocol(ports[i].protocol)
                      ==> !Clash(ports[i].port, ports[j].port)
  }

  predicate ClearOf(ports: seq<IngressPort>, protocol: string, cs: seq<PortConfig>)
  {
    forall i, j :: 0 <= i < |ports| && 0 <= j < |cs| && ports[i].protocol == protocol
        ==> !Clash(cs[j].port, ports[i].port)
  }

  /** The ports of a service parse and clash with no entry of another service name. */
  predicate OverlapFree(service: Service, items: seq<ServicePortsRef>)
  {
    && AllIngressParse(service.ingressPorts)
    && forall k :: 0 <= k < |items| && items[k].ref.name != service.key.name ==> EntryClear(service, items[k])
  }

  predicate EntryClear(service: Service, item: ServicePortsRef)
  {
    && AllParse(item.ports.tcp) && ClearOf(service.ingressPorts, PROTOCOL_TCP, item.ports.tcp)
    && AllParse(item.ports.udp) && ClearOf(service.ingressPorts, PROTOCOL_UDP, item.ports.udp)
  }

  predicate EntryOK(item: ServicePortsRef)
  {
    && AllParse(item.ports.tcp) && DisjointWithin(item.ports.tcp)
    && AllParse(item.ports.udp) && DisjointWithin(item.ports.udp)
  }

  predicate EntriesDisjoint(a: ServicePortsRef, b: ServicePortsRef)
  {
    DisjointBetween(a.ports.tcp, b.ports.tcp) && DisjointBetween(a.ports.udp, b.ports.udp)
  }

  /** A port mapping in which every port parses, no entry overlaps itself, and no two
      entries of different service names overlap. */
  predicate InternalOK(items: seq<ServicePortsRef>)
  {
    && (forall k :: 0 <= k < |items| ==> EntryOK(items[k]))
    && (forall k, l :: 0 <= k < l < |items| && items[k].ref.name != items[l].ref.name
                       ==> EntriesDisjoint(items[k], items[l]))
  }

  // ---------------------------------------------------------------------------
  // The same in terms of port numbers
  // ---------------------------------------------------------------------------

  /** The port string stands for the number. */
  predicate Opens(port: string, n: int)
  {
    Parses(port) && InRange(n, RangeOf(port))
  }

  ghost predicate ShareNumber(a: string, b: string)
  {
    exists n :: Opens(a, n) && Opens(b, n)
  }

  lemma {:induction false} ClashIsShared(a: string, b: string)
    ensures Clash(a, b) <==> ShareNumber(a, b)
  {
    OverlapMeansSharedPort(a, b);
    if n :| Opens(a, n) && Opens(b, n) { assert InRange(n, RangeOf(a)) && InRange(n, RangeOf(b)); }
    if Clash(a, b) {
      var n :| InRange(n, RangeOf(a)) && InRange(n, RangeOf(b));
      assert Opens(a, n) && Opens(b, n);
    }
  }

  /** A service passes its duplicate check exactly when all its ports parse and no number is
      opened twice for TCP or twice for UDP. */
  lemma {:induction false} NoDuplicatesMeans(ports: seq<IngressPort>)
    ensures NoDuplicates(ports) <==>
            && (forall i :: 0 <= i < |ports| ==> ParsePortRange(ports[i].port).Success?)
            && forall i, j ::
                 0 <= i < j < |ports| && ports[i].protocol == ports[j].protocol && ports[i].protocol in {"TCP", "UDP"}
                 ==> !ShareNumber(ports[i].port, ports[j].port)
  {
    forall i, j | 0 <= i < j < |ports|
        ensures Clash(ports[i].port, ports[j].port) <==> ShareNumber(ports[i].port, ports[j].port) {
      ClashIsShared(ports[i].port, ports[j].port);
    }
  }

  ghost predicate NoneShared(ports: seq<IngressPort>, protocol: string, cs: seq<PortConfig>)
  {
    forall i, j :: 0 <= i < |ports| && 0 <= j < |cs| && ports[i].protocol == protocol
                   ==> !ShareNumber(cs[j].port, ports[i].port)
  }

  lemma {:induction false} ClearOfMeans(ports: seq<IngressPort>, protocol: string, cs: seq<PortConfig>)
    ensures ClearOf(ports, protocol, cs) <==> NoneShared(ports, protocol, cs)
  {
    forall i, j | 0 <= i < |ports| && 0 <= j < |cs|
        ensures Clash(cs[j].port, ports[i].port) <==> ShareNumber(cs[j].port, ports[i].port) {
      ClashIsShared(cs[j].port, ports[i].port);
    }
  }

  /** The overlap check accepts exactly when the service's ports parse and, in every entry of
      another service name, all ports parse and none shares a number with the service's ports
      of its protocol. */
  lemma {:induction false} OverlapFreeMeans(service: Service, items: seq<ServicePortsRef>)
    ensures OverlapFree(service, items) <==>
            && (forall i :: 0 <= i < |service.ingressPorts| ==> ParsePortRange(service.ingressPorts[i].port).Success?)
            && forall k :: 0 <= k < |items| && items[k].ref.name != service.key.name ==>
                 && (forall c :: c in items[k].ports.tcp + items[k].ports.udp ==> ParsePortRange(c.port).Success?)
                 && NoneShared(service.ingressPorts, "TCP", items[k].ports.tcp)
                 && NoneShared(service.ingressPorts, "UDP", items[k].ports.udp)
  {
    forall k | 0 <= k < |items|
      ensures EntryClear(service, items[k]) <==>
              && (forall c :: c in items[k].ports.tcp + items[k].ports.udp ==> ParsePortRange(c.port).Success?)
              && NoneShared(service.ingressPorts, "TCP", items[k].ports.tcp)
              && NoneShared(service.ingressPorts, "UDP", items[k].ports.udp)
    {
      ClearOfMeans(service.ingressPorts, "TCP", items[k].ports.tcp);
      ClearOfMeans(service.ingressPorts, "UDP", items[k].ports.udp);
      AllParseMeans(items[k].ports);
    }
  }

  lemma {:induction false} AllParseMeans(ports: ProtocolPorts)
    ensures AllParse(ports.tcp) && AllParse(ports.udp) <==>
            forall c :: c in ports.tcp + ports.udp ==> ParsePortRange(c.port).Success?
  {
    if forall c :: c in ports.tcp + ports.udp ==> ParsePortRange(c.port).Success? {
      assert forall i :: 0 <= i < |ports.tcp| ==> ports.tcp[i] in ports.tcp + ports.udp;
      assert forall i :: 0 <= i < |ports.udp| ==> ports.udp[i] in ports.tcp + ports.udp;
    }
  }

  ghost predicate ListsApart(cs: seq<PortConfig>, ds: seq<PortConfig>)
  {
    forall i, j :: 0 <= i < |cs| && 0 <= j < |ds| ==> !ShareNumber(cs[i].port, ds[j].port)
  }

  ghost predicate ListApart(cs: seq<PortConfig>)
  {
    forall i, j :: 0 <= i < j < |cs| ==> !ShareNumber(cs[i].port, cs[j].port)
  }

  lemma {:induction false} ApartMeans(cs: seq<PortConfig>, ds: seq<PortConfig>)
    ensures DisjointWithin(cs) <==> ListApart(cs)
    ensures DisjointBetween(cs, ds) <==> ListsApart(cs, ds)
  {
    forall a, b ensures Clash(a, b) <==> ShareNumber(a, b) { ClashIsShared(a, b); }
  }

  /** The mapping check accepts exactly when every port of every entry parses, no entry opens
      a number twice for one protocol, and no two entries of different service names open
      one number for one protocol. */
  lemma {:induction false} InternalOKMeans(items: seq<ServicePortsRef>)
    ensures InternalOK(items) <==>
            && (forall k :: 0 <= k < |items| ==>
                  && (forall c :: c in items[k].ports.tcp + items[k].ports.udp ==> ParsePortRange(c.port).Success?)
                  && ListApart(items[k].ports.tcp) && ListApart(items[k].ports.udp))
            && (forall k, l :: 0 <= k < l < |items| && items[k].ref.name != items[l].ref.name ==>
                  && ListsApart(items[k].ports.tcp, items[l].ports.tcp)
                  && ListsApart(items[k].ports.udp, items[l].ports.udp))
  {
    forall k | 0 <= k < |items|
      ensures EntryOK(items[k]) <==>
              && (forall c :: c in items[k].ports.tcp + items[k].ports.udp ==> ParsePortRange(c.port).Success?)
              && ListApart(items[k].ports.tcp) && ListApart(items[k].ports.udp)
    {
      AllParseMeans(items[k].ports);
      ApartMeans(items[k].ports.tcp, items[k].ports.udp);
      ApartMeans(items[k].ports.udp, items[k].ports.tcp);
    }
    forall k, l | 0 <= k < l < |items|
      ensures EntriesDisjoint(items[k], items[l]) <==>
              ListsApart(items[k].ports.tcp, items[l].ports.tcp) && ListsApart(items[k].ports.udp, items[l].ports.udp)
    {
      ApartMeans(items[k].ports.tcp, items[l].ports.tcp);
      ApartMeans(items[k].ports.udp, items[l].ports.udp);
    }
  }

  predicate PairwiseDisjoint(rs: seq<PortRange>)
  {
    forall i, j :: 0 <= i < j < |rs| ==> !DoPortRangesOverlap(rs[i], rs[j])
  }

  predicate ValidRanges(rs: seq<PortRange>)
  {
    forall i :: 0 <= i < |rs| ==> rs[i].start <= rs[i].end
  }

  // ---------------------------------------------------------------------------
  // The ranges the loops collect
  // ---------------------------------------------------------------------------

  function Lookup<K, V>(m: map<K, seq<V>>, k: K): seq<V>
  {
    if k in m then m[k] else []
  }

  /** The ranges of the ports of one protocol, in order. */
  function IngressRanges(ports: seq<IngressPort>, protocol: string): seq<PortRange>
    requires AllIngressParse(ports)
  {
    if ports == [] then []
    else
      var last := ports[|ports| - 1];
      IngressRanges(ports[..|ports| - 1], protocol) + (if last.protocol == protocol then [RangeOf(last.port)] else [])
  }

  function ConfigRanges(cs: seq<PortConfig>): (rs: seq<PortRange>)
    requires AllParse(cs)
    ensures |rs| == |cs| && forall i :: 0 <= i < |cs| ==> rs[i] == RangeOf(cs[i].port)
  {
    seq(|cs|, i requires 0 <= i < |cs| => RangeOf(cs[i].port))
  }

  ghost predicate Collected(m: map<string, seq<PortRange>>, ports: seq<IngressPort>)
  {
    AllIngressParse(ports) && forall p :: Lookup(m, p) == IngressRanges(ports, p)
  }

  lemma {:induction false} CollectedSnoc(m: map<string, seq<PortRange>>, ports: seq<IngressPort>, port: IngressPort)
    requires Collected(m, ports) && Parses(port.port)
    ensures Collected(m[port.protocol := Lookup(m, port.protocol) + [RangeOf(port.port)]], ports + [port])
  {
    var m' := m[port.protocol := Lookup(m, port.protocol) + [RangeOf(port.port)]];
    var ports' := ports + [port];
    assert ports'[..|ports|] == ports;
    forall p ensures Lookup(m', p) == IngressRanges(ports', p) {
      assert Lookup(m, p) == IngressRanges(ports, p);
    }
  }

  /** Some port of the protocol has the range. */
  ghost predicate FromPort(ports: seq<IngressPort>, protocol: string, r: PortRange)
    requires AllIngressParse(ports)
  {
    exists i :: 0 <= i < |ports| && ports[i].protocol == protocol && RangeOf(ports[i].port) == r
  }

  lemma {:induction false} FromPortSnoc(ports: seq<IngressPort>, p: IngressPort, protocol: string, r: PortRange)
    requires AllIngressParse(ports) && AllIngressParse(ports + [p]) && Parses(p.port)
    ensures FromPort(ports + [p], protocol, r)
            <==> FromPort(ports, protocol, r) || (p.protocol == protocol && RangeOf(p.port) == r)
  {
    var all := ports + [p];
    assert all[|ports|] == p;
    if FromPort(ports, protocol, r) {
      var i :| 0 <= i < |ports| && ports[i].protocol == protocol && RangeOf(ports[i].port) == r;
      assert all[i] == ports[i];
    }
  }

  lemma {:induction false} IngressRangesMembers(ports: seq<IngressPort>, protocol: string)
    requires AllIngressParse(ports)
    ensures forall r :: r in IngressRanges(ports, protocol) <==> FromPort(ports, protocol, r)
  {
    if ports != [] {
      var init, last := ports[..|ports| - 1], ports[|ports| - 1];
      assert ports == init + [last];
      IngressRangesMembers(init, protocol);
      forall r { FromPortSnoc(init, last, protocol, r); }
    }
  }

  predicate NoneOverlaps(cs: seq<PortConfig>, rs: seq<PortRange>)
    requires AllParse(cs)
  {
    forall i, j :: 0 <= i < |cs| && 0 <= j < |rs| ==> !DoPortRangesOverlap(RangeOf(cs[i].port), rs[j])
  }

  lemma {:induction false} ClearOfIsNoneOverlaps(ports: seq<IngressPort>, protocol: string, cs: seq<PortConfig>)
    requires AllIngressParse(ports) && AllParse(cs)
    ensures ClearOf(ports, protocol, cs) <==> NoneOverlaps(cs, IngressRanges(ports, protocol))
  {
    IngressRangesMembers(ports, protocol);
    var rs := IngressRanges(ports, protocol);
    if ClearOf(ports, protocol, cs) {
      forall i, j | 0 <= i < |cs| && 0 <= j < |rs| ensures !DoPortRangesOverlap(RangeOf(cs[i].port), rs[j]) {
        assert rs[j] in rs && FromPort(ports, protocol, rs[j]);
        var k :| 0 <= k < |ports| && ports[k].protocol == protocol && RangeOf(ports[k].port) == rs[j];
        assert !Clash(cs[i].port, ports[k].port);
      }
    }
    if NoneOverlaps(cs, rs) {
      forall i, j | 0 <= i < |ports| && 0 <= j < |cs| && ports[i].protocol == protocol
        ensures !Clash(cs[j].port, ports[i].port)
      {
        var r := RangeOf(ports[i].port);
        assert FromPort(ports, protocol, r) && r in rs;
        var k :| 0 <= k < |rs| && rs[k] == r;
      }
    }
  }

  // ---------------------------------------------------------------------------
  // CheckPortOverlaps
  // ---------------------------------------------------------------------------

  /** The scan of a list of ranges already taken; the source repeats it at each use. */
  method OverlapsNone(r: PortRange, existing: seq<PortRange>) returns (ok: bool)
    ensures ok <==> forall j :: 0 <= j < |existing| ==> !DoPortRangesOverlap(r, existing[j])
  {
    for j := 0 to |existing|
      invariant forall l :: 0 <= l < j ==> !DoPortRangesOverlap(r, existing[l])
    {
      if DoPortRangesOverlap(r, existing[j]) { return false; }
    }
    return true;
  }

  /** One protocol of one entry: the source writes this block once for TCP, once for UDP. */
  method ScanEntry(cs: seq<PortConfig>, serviceRanges: seq<PortRange>) returns (ok: bool)
    ensures ok <==> AllParse(cs) && NoneOverlaps(cs, serviceRanges)
  {
    for i := 0 to |cs|
      invariant AllParse(cs[..i]) && NoneOverlaps(cs[..i], serviceRanges)
    {
      var parsed := ParsePortRange(cs[i].port);
      if parsed.Failure? { return false; }
      var clear := OverlapsNone(parsed.value, serviceRanges);
      if !clear { return false; }
      assert cs[..i + 1] == cs[..i] + [cs[i]];
    }
    assert cs[..|cs|] == cs;
    return true;
  }

  /** servicePorts, the ranges of a service by protocol; nothing if a port does not parse. */
  method CollectServicePorts(ports: seq<IngressPort>) returns (r: Option<map<string, seq<PortRange>>>)
    ensures r.Some? <==> AllIngressParse(ports)
    ensures r.Some? ==> forall p :: Lookup(r.value, p) == IngressRanges(ports, p)
  {
    var servicePorts: map<string, seq<PortRange>> := map[];
    for i := 0 to |ports|
      invariant Collected(servicePorts, ports[..i])
    {
      var parsed := ParsePortRange(ports[i].port);
      if parsed.Failure? { return None; }
      var protocol := ports[i].protocol;
      CollectedSnoc(servicePorts, ports[..i], ports[i]);
      assert ports[..i + 1] == ports[..i] + [ports[i]];
      servicePorts := servicePorts[protocol := Lookup(servicePorts, protocol) + [parsed.value]];
    }
    assert ports[..|ports|] == ports;
    return Some(servicePorts);
  }

  lemma {:induction false} EntryClearByRanges(service: Service, item: ServicePortsRef)
    requires AllIngressParse(service.ingressPorts)
    ensures EntryClear(service, item) <==>
            && AllParse(item.ports.tcp)
            && NoneOverlaps(item.ports.tcp, IngressRanges(service.ingressPorts, PROTOCOL_TCP))
            && AllParse(item.ports.udp)
            && NoneOverlaps(item.ports.udp, IngressRanges(service.ingressPorts, PROTOCOL_UDP))
  {
    if AllParse(item.ports.tcp) { ClearOfIsNoneOverlaps(service.ingressPorts, PROTOCOL_TCP, item.ports.tcp); }
    if AllParse(item.ports.udp) { ClearOfIsNoneOverlaps(service.ingressPorts, PROTOCOL_UDP, item.ports.udp); }
  }

  method CheckPortOverlaps(service: Service, items: seq<ServicePortsRef>) returns (ok: bool)
    ensures ok <==> OverlapFree(service, items)
  {
    var servicePorts := CollectServicePorts(service.ingressPorts);
    if servicePorts.None? { return false; }
    for k := 0 to |items|
      invariant forall l :: 0 <= l < k && items[l].ref.name != service.key.name ==> EntryClear(service, items[l])
    {
      if items[k].ref.name == service.key.name { continue; }
      EntryClearByRanges(service, items[k]);
      var tcpOk := ScanEntry(items[k].ports.tcp, Lookup(servicePorts.value, PROTOCOL_TCP));
      if !tcpOk { return false; }
      var udpOk := ScanEntry(items[k].ports.udp, Lookup(servicePorts.value, PROTOCOL_UDP));
      if !udpOk { return false; }
    }
    return true;
  }

  // ---------------------------------------------------------------------------
  // checkPortRangeOverlaps: sort in place, then compare neighbours
  // ---------------------------------------------------------------------------

  predicate SortedByStart(rs: seq<PortRange>)
  {
    forall i, j :: 0 <= i < j < |rs| ==> rs[i].start <= rs[j].start
  }

  method SwapWithPrevious(a: array<PortRange>, k: nat)
    requires 0 < k < a.Length
    modifies a
    ensures a[..] == old(a[..])[k - 1 := old(a[k])][k := old(a[k - 1])]
    ensures multiset(a[..]) == old(multiset(a[..]))
  {
    a[k - 1], a[k] := a[k], a[k - 1];
  }

  /** The prefix up to n is in order, leaving out position k. */
  predicate SortedExcept(rs: seq<PortRange>, n: nat, k: nat)
    requires n < |rs|
  {
    forall i, j :: 0 <= i < j <= n && j != k ==> rs[i].start <= rs[j].start
  }

  /** Moves the element at n down to its place among the sorted elements before it. */
  method InsertInOrder(a: array<PortRange>, n: nat)
    requires n < a.Length && SortedByStart(a[..n])
    modifies a
    ensures multiset(a[..]) == old(multiset(a[..]))
    ensures SortedByStart(a[..n + 1])
  {
    var k := n;
    assert forall i :: 0 <= i < n ==> a[..n][i] == a[i];
    while k > 0 && a[k - 1].start > a[k].start
      invariant 0 <= k <= n
      invariant multiset(a[..]) == old(multiset(a[..]))
      invariant SortedExcept(a[..], n, k)
    {
      SwapWithPrevious(a, k);
      k := k - 1;
    }
  }

  /** sort.Slice by start port. The library promises a permutation in order and nothing
      about ties; an insertion sort is one such. */
  method SortByStart(a: array<PortRange>)
    modifies a
    ensures multiset(a[..]) == old(multiset(a[..]))
    ensures SortedByStart(a[..])
  {
    for n := 0 to a.Length
      invariant multiset(a[..]) == old(multiset(a[..]))
      invariant SortedByStart(a[..n])
    {
      InsertInOrder(a, n);
    }
    assert a[..a.Length] == a[..];
  }

  predicate NeighboursApart(rs: seq<PortRange>)
  {
    forall i :: 0 <= i < |rs| - 1 ==> rs[i].end < rs[i + 1].start
  }

  /** In start order, comparing neighbours is comparing all pairs. */
  lemma {:induction false} NeighboursDecide(rs: seq<PortRange>)
    requires SortedByStart(rs) && ValidRanges(rs)
    ensures NeighboursApart(rs) <==> PairwiseDisjoint(rs)
  {
    if NeighboursApart(rs) {
      forall i, j | 0 <= i < j < |rs| ensures !DoPortRangesOverlap(rs[i], rs[j]) {
        assert rs[i].end < rs[i + 1].start <= rs[j].start;
      }
    } else {
      var i :| 0 <= i < |rs| - 1 && !(rs[i].end < rs[i + 1].start);
      assert DoPortRangesOverlap(rs[i], rs[i + 1]);
    }
  }

  /** Pairwise disjointness of valid ranges, said of the multiset of ranges. */
  ghost predicate DisjointBag(m: multiset<PortRange>)
  {
    && (forall r :: m[r] <= 1)
    && (forall r, q :: r in m && q in m && r != q ==> !DoPortRangesOverlap(r, q))
  }

  lemma {:induction false} DisjointHasNoRepeats(rs: seq<PortRange>, r: PortRange)
    requires ValidRanges(rs) && PairwiseDisjoint(rs)
    ensures multiset(rs)[r] <= 1
  {
    if rs != [] {
      var init, last := rs[..|rs| - 1], rs[|rs| - 1];
      assert rs == init + [last];
      DisjointHasNoRepeats(init, r);
      assert forall i :: 0 <= i < |init| ==> init[i] == rs[i] && !DoPortRangesOverlap(rs[i], last);
      assert last !in init;
    }
  }

  lemma {:induction false} PairwiseIsDisjointBag(rs: seq<PortRange>)
    requires ValidRanges(rs)
    ensures PairwiseDisjoint(rs) <==> DisjointBag(multiset(rs))
  {
    if PairwiseDisjoint(rs) {
      forall r ensures multiset(rs)[r] <= 1 { DisjointHasNoRepeats(rs, r); }
    }
    if DisjointBag(multiset(rs)) {
      forall i, j | 0 <= i < j < |rs| ensures !DoPortRangesOverlap(rs[i], rs[j]) {
        assert rs == rs[..j] + [rs[j]] + rs[j + 1..];
        assert multiset(rs)[rs[j]] >= multiset(rs[..j])[rs[j]] + 1;
        assert rs[j] !in rs[..j] && rs[i] in rs[..j];
        assert rs[i] in multiset(rs) && rs[j] in multiset(rs);
      }
    }
  }

  /** Sort-and-scan is complete, whatever the sort does with ties: for any permutation in
      start order, comparing neighbours decides whether the original list is disjoint. */
  lemma {:induction false} SortAndScanDecides(original: seq<PortRange>, sorted: seq<PortRange>)
    requires ValidRanges(original)
    requires multiset(sorted) == multiset(original) && SortedByStart(sorted)
    ensures NeighboursApart(sorted) <==> PairwiseDisjoint(original)
  {
    forall i | 0 <= i < |sorted| ensures sorted[i].start <= sorted[i].end {
      assert sorted[i] in multiset(original);
    }
    PairwiseIsDisjointBag(original);
    PairwiseIsDisjointBag(sorted);
    NeighboursDecide(sorted);
  }

  method CheckPortRangeOverlaps(ranges: array<PortRange>) returns (ok: bool)
    requires ValidRanges(ranges[..])
    modifies ranges
    ensures multiset(ranges[..]) == old(multiset(ranges[..]))
    ensures ok <==> PairwiseDisjoint(old(ranges[..]))
  {
    if ranges.Length <= 1 { return true; }
    SortByStart(ranges);
    SortAndScanDecides(old(ranges[..]), ranges[..]);
    for i := 0 to ranges.Length - 1
      invariant multiset(ranges[..]) == old(multiset(ranges[..]))
      invariant NeighboursApart(ranges[..]) <==> PairwiseDisjoint(old(ranges[..]))
      invariant forall k :: 0 <= k < i ==> ranges[..][k].end < ranges[..][k + 1].start
    {
      if ranges[i].end >= ranges[i + 1].start {
        assert ranges[..][i].end >= ranges[..][i + 1].start;
        return false;
      }
    }
    return true;
  }
}

/** CheckPortOverlapsOptimized: pool every range of a protocol, sort, scan neighbours.
    What it decides, and when that is what CheckPortOverlaps decides. */
module FastCheck {
  import opened PortGrammar
  import opened Model
  import opened PortChecks
  import opened MappingChecks

  predicate OthersParse(items: seq<ServicePortsRef>, name: string)
  {
    forall k :: 0 <= k < |items| && items[k].ref.name != name
                ==> AllParse(items[k].ports.tcp) && AllParse(items[k].ports.udp)
  }

  /** The ranges of the entries of other service names, in order. */
  function OtherRanges(items: seq<ServicePortsRef>, name: string, protocol: string): seq<PortRange>
    requires OthersParse(items, name)
  {
    if items == [] then []
    else
      var last := items[|items| - 1];
      OtherRanges(items[..|items| - 1], name, protocol)
      + (if last.ref.name == name then [] else ConfigRanges(PortsFor(last, protocol)))
  }

  predicate PoolDisjoint(service: Service, items: seq<ServicePortsRef>, protocol: string)
    requires AllIngressParse(service.ingressPorts) && OthersParse(items, service.key.name)
  {
    PairwiseDisjoint(IngressRanges(service.ingressPorts, protocol) + OtherRanges(items, service.key.name, protocol))
  }

  predicate OptimizedAccepts(service: Service, items: seq<ServicePortsRef>)
  {
    && AllIngressParse(service.ingressPorts) && OthersParse(items, service.key.name)
    && PoolDisjoint(service, items, PROTOCOL_TCP) && PoolDisjoint(service, items, PROTOCOL_UDP)
  }

  /** Every port of a list parses and its ranges are collected in order. */
  method ParseConfigs(cs: seq<PortConfig>) returns (ok: bool, ranges: seq<PortRange>)
    ensures ok <==> AllParse(cs)
    ensures ok ==> ranges == ConfigRanges(cs)
  {
    ranges := [];
    for i := 0 to |cs|
      invariant AllParse(cs[..i]) && ranges == ConfigRanges(cs[..i])
    {
      assert cs[..i + 1] == cs[..i] + [cs[i]];
      var parsed := ParsePortRange(cs[i].port);
      if parsed.Failure? { return false, []; }
      ranges := ranges + [parsed.value];
    }
    assert cs[..|cs|] == cs;
    return true, ranges;
  }

  method ScanSorted(ranges: seq<PortRange>) returns (ok: bool)
    requires ValidRanges(ranges)
    ensures ok <==> PairwiseDisjoint(ranges)
  {
    var slice := new PortRange[|ranges|](i requires 0 <= i < |ranges| => ranges[i]);
    assert slice[..] == ranges;
    ok := CheckPortRangeOverlaps(slice);
  }

  ghost predicate CollectedOthers(tcp: seq<PortRange>, udp: seq<PortRange>, items: seq<ServicePortsRef>, name: string)
  {
    && OthersParse(items, name)
    && tcp == OtherRanges(items, name, PROTOCOL_TCP) && udp == OtherRanges(items, name, PROTOCOL_UDP)
  }

  lemma {:induction false} CollectedOthersSnoc(tcp: seq<PortRange>, udp: seq<PortRange>,
                                               items: seq<ServicePortsRef>, item: ServicePortsRef, name: string)
    requires CollectedOthers(tcp, udp, items, name)
    requires item.ref.name != name ==> AllParse(item.ports.tcp) && AllParse(item.ports.udp)
    ensures item.ref.name == name ==> CollectedOthers(tcp, udp, items + [item], name)
    ensures item.ref.name != name
            ==> CollectedOthers(tcp + ConfigRanges(item.ports.tcp), udp + ConfigRanges(item.ports.udp),
                items + [item], name)
  {
    assert (items + [item])[..|items|] == items;
  }

  lemma {:induction false} CollectedOthersNext(tcp: seq<PortRange>, udp: seq<PortRange>,
                                               items: seq<ServicePortsRef>, k: nat, name: string)
    requires k < |items| && CollectedOthers(tcp, udp, items[..k], name)
    requires items[k].ref.name != name ==> AllParse(items[k].ports.tcp) && AllParse(items[k].ports.udp)
    ensures items[k].ref.name == name ==> CollectedOthers(tcp, udp, items[..k + 1], name)
    ensures items[k].ref.name != name
            ==> CollectedOthers(tcp + ConfigRanges(items[k].ports.tcp), udp + ConfigRanges(items[k].ports.udp),
                items[..k + 1], name)
  {
    assert items[..k + 1] == items[..k] + [items[k]];
    CollectedOthersSnoc(tcp, udp, items[..k], items[k], name);
  }

  method CollectOthers(items: seq<ServicePortsRef>, name: string)
    returns (ok: bool, tcp: seq<PortRange>, udp: seq<PortRange>)
    ensures ok <==> OthersParse(items, name)
    ensures ok ==> CollectedOthers(tcp, udp, items, name)
  {
    tcp, udp := [], [];
    for k := 0 to |items|
      invariant CollectedOthers(tcp, udp, items[..k], name)
    {
      var item := items[k];
      if item.ref.name == name {
        CollectedOthersNext(tcp, udp, items, k, name);
        continue;
      }
      var tcpOk, tcpRanges := ParseConfigs(item.ports.tcp);
      if !tcpOk { return false, [], []; }
      var udpOk, udpRanges := ParseConfigs(item.ports.udp);
      if !udpOk { return false, [], []; }
      CollectedOthersNext(tcp, udp, items, k, name);
      tcp, udp := tcp + tcpRanges, udp + udpRanges;
    }
    assert items[..|items|] == items;
    return true, tcp, udp;
  }

  method CheckPortOverlapsOptimized(service: Service, items: seq<ServicePortsRef>) returns (ok: bool)
    ensures ok <==> OptimizedAccepts(service, items)
  {
    var ports := service.ingressPorts;
    var tcpRanges: seq<PortRange>, udpRanges: seq<PortRange> := [], [];
    for i := 0 to |ports|
      invariant AllIngressParse(ports[..i])
      invariant tcpRanges == IngressRanges(ports[..i], PROTOCOL_TCP)
      invariant udpRanges == IngressRanges(ports[..i], PROTOCOL_UDP)
    {
      var p := ports[i];
      assert ports[..i + 1] == ports[..i] + [p];
      var parsed := ParsePortRange(p.port);
      if parsed.Failure? { return false; }
      IngressRangesSnoc(ports[..i], p, PROTOCOL_TCP);
      IngressRangesSnoc(ports[..i], p, PROTOCOL_UDP);
      if p.protocol == PROTOCOL_TCP {
        tcpRanges := tcpRanges + [parsed.value];
      } else if p.protocol == PROTOCOL_UDP {
        udpRanges := udpRanges + [parsed.value];
      }
    }
    assert ports[..|ports|] == ports;
    var parsed, tcp, udp := CollectOthers(items, service.key.name);
    if !parsed { return false; }
    PoolIsValid(service, items, PROTOCOL_TCP);
    PoolIsValid(service, items, PROTOCOL_UDP);
    var tcpOk := ScanSorted(tcpRanges + tcp);
    if !tcpOk { return false; }
    ok := ScanSorted(udpRanges + udp);
  }

  lemma {:induction false} IngressRangesValid(ports: seq<IngressPort>, protocol: string)
    requires AllIngressParse(ports)
    ensures ValidRanges(IngressRanges(ports, protocol))
  {
    SelectRanges(ports, protocol);
    var cs, rs := Select(ports, protocol), IngressRanges(ports, protocol);
    assert forall i :: 0 <= i < |rs| ==> rs[i] == RangeOf(cs[i].port);
  }

  lemma {:induction false} OtherRangesValid(items: seq<ServicePortsRef>, name: string, protocol: string)
    requires OthersParse(items, name)
    ensures ValidRanges(OtherRanges(items, name, protocol))
  {
    if items != [] {
      OtherRangesValid(items[..|items| - 1], name, protocol);
    }
  }

  lemma {:induction false} PoolIsValid(service: Service, items: seq<ServicePortsRef>, protocol: string)
    requires AllIngressParse(service.ingressPorts) && OthersParse(items, service.key.name)
    ensures ValidRanges(IngressRanges(service.ingressPorts, protocol) + OtherRanges(items, service.key.name, protocol))
  {
    IngressRangesValid(service.ingressPorts, protocol);
    OtherRangesValid(items, service.key.name, protocol);
  }

  // ---------------------------------------------------------------------------
  // Fast form against simple form
  // ---------------------------------------------------------------------------

  predicate CrossDisjoint(xs: seq<PortRange>, ys: seq<PortRange>)
  {
    forall i, j :: 0 <= i < |xs| && 0 <= j < |ys| ==> !DoPortRangesOverlap(xs[i], ys[j])
  }

  lemma {:induction false} PairwiseOfConcat(xs: seq<PortRange>, ys: seq<PortRange>)
    ensures PairwiseDisjoint(xs + ys) <==> PairwiseDisjoint(xs) && PairwiseDisjoint(ys) && CrossDisjoint(xs, ys)
  {
    var all := xs + ys;
    assert forall i :: 0 <= i < |xs| ==> all[i] == xs[i];
    assert forall j :: 0 <= j < |ys| ==> all[|xs| + j] == ys[j];
    if PairwiseDisjoint(all) {
      forall i, j | 0 <= i < j < |ys| ensures !DoPortRangesOverlap(ys[i], ys[j]) {
        assert !DoPortRangesOverlap(all[|xs| + i], all[|xs| + j]);
      }
      forall i, j | 0 <= i < |xs| && 0 <= j < |ys| ensures !DoPortRangesOverlap(xs[i], ys[j]) {
        assert !DoPortRangesOverlap(all[i], all[|xs| + j]);
      }
    }
  }

  /** The entries of other names are disjoint, each in itself and each from the rest. */
  predicate OthersDisjointFor(items: seq<ServicePortsRef>, name: string, protocol: string)
  {
    && (forall k :: 0 <= k < |items| && items[k].ref.name != name ==> DisjointWithin(PortsFor(items[k], protocol)))
    && (forall k, l :: 0 <= k < l < |items| && items[k].ref.name != name && items[l].ref.name != name
                       ==> DisjointBetween(PortsFor(items[k], protocol), PortsFor(items[l], protocol)))
  }

  predicate OthersDisjoint(items: seq<ServicePortsRef>, name: string)
  {
    OthersDisjointFor(items, name, PROTOCOL_TCP) && OthersDisjointFor(items, name, PROTOCOL_UDP)
  }

  predicate OthersClear(items: seq<ServicePortsRef>, name: string, protocol: string, rs: seq<PortRange>)
    requires OthersParse(items, name)
  {
    forall k :: 0 <= k < |items| && items[k].ref.name != name ==> NoneOverlaps(PortsFor(items[k], protocol), rs)
  }

  lemma {:induction false} CrossOfOne(cs: seq<PortConfig>, rs: seq<PortRange>)
    requires AllParse(cs)
    ensures CrossDisjoint(ConfigRanges(cs), rs) <==> NoneOverlaps(cs, rs)
  {
  }

  lemma {:induction false} CrossOfOthersSnoc(items: seq<ServicePortsRef>, item: ServicePortsRef, name: string,
                                             protocol: string, rs: seq<PortRange>)
    requires OthersParse(items, name) && OthersParse(items + [item], name)
    requires CrossDisjoint(OtherRanges(items, name, protocol), rs) <==> OthersClear(items, name, protocol, rs)
    ensures CrossDisjoint(OtherRanges(items + [item], name, protocol), rs)
            <==> OthersClear(items + [item], name, protocol, rs)
  {
    var all := items + [item];
    assert all[..|items|] == items && all[|items|] == item;
    if item.ref.name == name {
      OthersSkip(items, item, name, protocol);
      assert forall k :: 0 <= k < |items| ==> all[k] == items[k];
    } else {
      CrossOfConcat(OtherRanges(items, name, protocol), ConfigRanges(PortsFor(item, protocol)), rs);
      CrossOfOne(PortsFor(item, protocol), rs);
      assert forall k :: 0 <= k < |items| ==> all[k] == items[k];
    }
  }

  lemma {:induction false} CrossOfOthers(items: seq<ServicePortsRef>, name: string, protocol: string,
                                         rs: seq<PortRange>)
    requires OthersParse(items, name)
    ensures CrossDisjoint(OtherRanges(items, name, protocol), rs) <==> OthersClear(items, name, protocol, rs)
  {
    if items != [] {
      var init, last := items[..|items| - 1], items[|items| - 1];
      assert items == init + [last];
      CrossOfOthers(init, name, protocol, rs);
      CrossOfOthersSnoc(init, last, name, protocol, rs);
    }
  }

  lemma {:induction false} CrossOfConcat(xs: seq<PortRange>, ys: seq<PortRange>, rs: seq<PortRange>)
    ensures CrossDisjoint(xs + ys, rs) <==> CrossDisjoint(xs, rs) && CrossDisjoint(ys, rs)
  {
    var all := xs + ys;
    if CrossDisjoint(all, rs) {
      forall i, j | 0 <= i < |ys| && 0 <= j < |rs| ensures !DoPortRangesOverlap(ys[i], rs[j]) {
        assert all[|xs| + i] == ys[i];
      }
      forall i, j | 0 <= i < |xs| && 0 <= j < |rs| ensures !DoPortRangesOverlap(xs[i], rs[j]) {
        assert all[i] == xs[i];
      }
    }
  }

  lemma {:induction false} ConfigRangesPairwise(cs: seq<PortConfig>)
    requires AllParse(cs)
    ensures PairwiseDisjoint(ConfigRanges(cs)) <==> DisjointWithin(cs)
  {
    var rs := ConfigRanges(cs);
    if PairwiseDisjoint(rs) {
      forall i, j | 0 <= i < j < |cs| ensures !Clash(cs[i].port, cs[j].port) {
        assert !DoPortRangesOverlap(rs[i], rs[j]);
      }
    }
    if DisjointWithin(cs) {
      forall i, j | 0 <= i < j < |rs| ensures !DoPortRangesOverlap(rs[i], rs[j]) {
        assert !Clash(cs[i].port, cs[j].port);
      }
    }
  }

  lemma {:induction false} NoneOverlapsIsBetween(cs: seq<PortConfig>, ds: seq<PortConfig>)
    requires AllParse(cs) && AllParse(ds)
    ensures NoneOverlaps(cs, ConfigRanges(ds)) <==> DisjointBetween(cs, ds)
  {
    var rs := ConfigRanges(ds);
    if NoneOverlaps(cs, rs) {
      forall i, j | 0 <= i < |cs| && 0 <= j < |ds| ensures !Clash(cs[i].port, ds[j].port) {
        assert !DoPortRangesOverlap(RangeOf(cs[i].port), rs[j]);
      }
    }
    if DisjointBetween(cs, ds) {
      forall i, j | 0 <= i < |cs| && 0 <= j < |rs| ensures !DoPortRangesOverlap(RangeOf(cs[i].port), rs[j]) {
        assert !Clash(cs[i].port, ds[j].port);
      }
    }
  }

  lemma {:induction false} OthersPairwise(items: seq<ServicePortsRef>, name: string, protocol: string)
    requires OthersParse(items, name)
    ensures PairwiseDisjoint(OtherRanges(items, name, protocol)) <==> OthersDisjointFor(items, name, protocol)
  {
    if items != [] {
      var init, last := items[..|items| - 1], items[|items| - 1];
      assert items == init + [last];
      OthersPairwise(init, name, protocol);
      if last.ref.name == name {
        OthersSkip(init, last, name, protocol);
      } else {
        OthersPairwiseStep(init, last, name, protocol);
        OthersDisjointStep(init, last, name, protocol);
      }
    }
  }

  lemma {:induction false} OthersSkip(items: seq<ServicePortsRef>, item: ServicePortsRef, name: string,
                                      protocol: string)
    requires item.ref.name == name && OthersParse(items, name) && OthersParse(items + [item], name)
    ensures OtherRanges(items + [item], name, protocol) == OtherRanges(items, name, protocol)
    ensures OthersDisjointFor(items + [item], name, protocol) <==> OthersDisjointFor(items, name, protocol)
  {
    assert (items + [item])[..|items|] == items;
    assert forall k :: 0 <= k < |items| ==> (items + [item])[k] == items[k];
  }

  lemma {:induction false} OthersPairwiseStep(items: seq<ServicePortsRef>, item: ServicePortsRef, name: string,
                                              protocol: string)
    requires item.ref.name != name && OthersParse(items, name)
    requires AllParse(item.ports.tcp) && AllParse(item.ports.udp) && OthersParse(items + [item], name)
    ensures PairwiseDisjoint(OtherRanges(items + [item], name, protocol)) <==>
            && PairwiseDisjoint(OtherRanges(items, name, protocol)) && DisjointWithin(PortsFor(item, protocol))
            && forall k :: 0 <= k < |items| && items[k].ref.name != name
                           ==> DisjointBetween(PortsFor(items[k], protocol), PortsFor(item, protocol))
  {
    assert (items + [item])[..|items|] == items;
    var cs := PortsFor(item, protocol);
    PairwiseOfConcat(OtherRanges(items, name, protocol), ConfigRanges(cs));
    ConfigRangesPairwise(cs);
    CrossOfOthers(items, name, protocol, ConfigRanges(cs));
    forall k | 0 <= k < |items| && items[k].ref.name != name
      ensures NoneOverlaps(PortsFor(items[k], protocol), ConfigRanges(cs))
              <==> DisjointBetween(PortsFor(items[k], protocol), cs)
    {
      NoneOverlapsIsBetween(PortsFor(items[k], protocol), cs);
    }
  }

  lemma {:induction false} OthersDisjointStep(items: seq<ServicePortsRef>, item: ServicePortsRef, name: string,
                                              protocol: string)
    requires item.ref.name != name
    ensures OthersDisjointFor(items + [item], name, protocol) <==>
            && OthersDisjointFor(items, name, protocol) && DisjointWithin(PortsFor(item, protocol))
            && forall k :: 0 <= k < |items| && items[k].ref.name != name
                           ==> DisjointBetween(PortsFor(items[k], protocol), PortsFor(item, protocol))
  {
    var all := items + [item];
    assert forall k :: 0 <= k < |items| ==> all[k] == items[k];
    if OthersDisjointFor(all, name, protocol) {
      assert DisjointWithin(PortsFor(all[|items|], protocol));
      forall k | 0 <= k < |items| && items[k].ref.name != name
        ensures DisjointBetween(PortsFor(items[k], protocol), PortsFor(item, protocol))
      {
        assert DisjointBetween(PortsFor(all[k], protocol), PortsFor(all[|items|], protocol));
      }
    }
  }

  lemma {:induction false} CrossSymmetric(xs: seq<PortRange>, ys: seq<PortRange>)
    ensures CrossDisjoint(xs, ys) <==> CrossDisjoint(ys, xs)
  {
  }

  lemma {:induction false} PoolDecides(service: Service, items: seq<ServicePortsRef>, protocol: string)
    requires AllIngressParse(service.ingressPorts) && OthersParse(items, service.key.name)
    ensures PoolDisjoint(service, items, protocol) <==>
            && DisjointWithin(Select(service.ingressPorts, protocol))
            && OthersDisjointFor(items, service.key.name, protocol)
            && forall k :: 0 <= k < |items| && items[k].ref.name != service.key.name
                           ==> NoneOverlaps(PortsFor(items[k], protocol), IngressRanges(service.ingressPorts, protocol))
  {
    var mine, others := IngressRanges(service.ingressPorts, protocol), OtherRanges(items, service.key.name, protocol);
    PairwiseOfConcat(mine, others);
    CrossSymmetric(mine, others);
    CrossOfOthers(items, service.key.name, protocol, mine);
    OthersPairwise(items, service.key.name, protocol);
    SelectRanges(service.ingressPorts, protocol);
    ConfigRangesPairwise(Select(service.ingressPorts, protocol));
  }

  /** The fast check accepts exactly when the simple check accepts, the service does not
      overlap itself, and the other entries do not overlap among themselves. */
  lemma {:induction false} FastFormExactly(service: Service, items: seq<ServicePortsRef>)
    ensures OptimizedAccepts(service, items) <==>
            && OverlapFree(service, items)
            && NoDuplicates(service.ingressPorts)
            && OthersDisjoint(items, service.key.name)
  {
    if AllIngressParse(service.ingressPorts) && OthersParse(items, service.key.name) {
      PoolDecides(service, items, PROTOCOL_TCP);
      PoolDecides(service, items, PROTOCOL_UDP);
      NoDuplicatesBySelect(service.ingressPorts);
      forall k | 0 <= k < |items| && items[k].ref.name != service.key.name
        ensures EntryClear(service, items[k]) <==>
                && NoneOverlaps(items[k].ports.tcp, IngressRanges(service.ingressPorts, PROTOCOL_TCP))
                && NoneOverlaps(items[k].ports.udp, IngressRanges(service.ingressPorts, PROTOCOL_UDP))
      {
        EntryClearByRanges(service, items[k]);
      }
    }
  }

  predicate DistinctNames(items: seq<ServicePortsRef>)
  {
    forall k, l :: 0 <= k < l < |items| ==> items[k].ref.name != items[l].ref.name
  }

  /** The two forms agree on every admitted service and every admitted mapping whose
      entries have distinct service names. */
  lemma {:induction false} FastFormAgrees(service: Service, items: seq<ServicePortsRef>)
    requires NoDuplicates(service.ingressPorts) && InternalOK(items) && DistinctNames(items)
    ensures OptimizedAccepts(service, items) <==> OverlapFree(service, items)
  {
    FastFormExactly(service, items);
    forall k, l | 0 <= k < l < |items| ensures EntriesDisjoint(items[k], items[l]) {
      assert items[k].ref.name != items[l].ref.name;
    }
    assert forall k :: 0 <= k < |items| ==> EntryOK(items[k]);
  }

  /** Distinct names are needed: two entries of one name in two namespaces may share a
      port, and then the fast check rejects every service of another name. */
  lemma {:induction false} FastFormDisagrees(service: Service)
    requires service.key.name != "a" && service.ingressPorts == []
    ensures exists items :: InternalOK(items) && OverlapFree(service, items) && !OptimizedAccepts(service, items)
  {
    var e1 := ServicePortsRef(ObjectRef("", "", "a", "n1"), ProtocolPorts([PortConfig("80", "")], []));
    var e2 := ServicePortsRef(ObjectRef("", "", "a", "n2"), ProtocolPorts([PortConfig("80", "")], []));
    PortEighty();
    assert Clash(e1.ports.tcp[0].port, e2.ports.tcp[0].port);
    SharedNameRejected(service, e1, e2);
  }

  lemma {:induction false} SharedNameRejected(service: Service, e1: ServicePortsRef, e2: ServicePortsRef)
    requires service.ingressPorts == [] && e1.ref.name == e2.ref.name != service.key.name
    requires EntryOK(e1) && EntryOK(e2) && !DisjointBetween(e1.ports.tcp, e2.ports.tcp)
    ensures InternalOK([e1, e2]) && OverlapFree(service, [e1, e2]) && !OptimizedAccepts(service, [e1, e2])
  {
    var items := [e1, e2];
    FastFormExactly(service, items);
    assert PortsFor(items[0], PROTOCOL_TCP) == e1.ports.tcp && PortsFor(items[1], PROTOCOL_TCP) == e2.ports.tcp;
  }
}

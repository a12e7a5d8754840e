/** The duplicate check of a service, the check of a whole port mapping, and the
    conversion of a service's ports into a mapping entry. */
module MappingChecks {
  import opened PortGrammar
  import opened Model
  import opened PortChecks

  // ---------------------------------------------------------------------------
  // ConvertIngressPortsToProtocolPorts
  // ---------------------------------------------------------------------------

  function ConfigOf(p: IngressPort): PortConfig
  {
    PortConfig(p.port, p.description)
  }

  /** The ports of one protocol, in order, as mapping configuration. */
  function Select(ports: seq<IngressPort>, protocol: string): seq<PortConfig>
  {
    if ports == [] then []
    else
      var last := ports[|ports| - 1];
      Select(ports[..|ports| - 1], protocol) + (if last.protocol == protocol then [ConfigOf(last)] else [])
  }

  function Converted(ports: seq<IngressPort>): ProtocolPorts
  {
    ProtocolPorts(Select(ports, PROTOCOL_TCP), Select(ports, PROTOCOL_UDP))
  }

  lemma {:induction false} SelectSnoc(ports: seq<IngressPort>, p: IngressPort, protocol: string)
    ensures Select(ports + [p], protocol)
         == Select(ports, protocol) + (if p.protocol == protocol then [ConfigOf(p)] else [])
  {
    assert (ports + [p])[..|ports|] == ports;
  }

  method ConvertIngressPortsToProtocolPorts(ingressPorts: seq<IngressPort>) returns (result: ProtocolPorts)
    ensures result == Converted(ingressPorts)
  {
    result := ProtocolPorts([], []);
    for i := 0 to |ingressPorts|
      invariant result == Converted(ingressPorts[..i])
    {
      var p := ingressPorts[i];
      assert ingressPorts[..i + 1] == ingressPorts[..i] + [p];
      SelectSnoc(ingressPorts[..i], p, PROTOCOL_TCP);
      SelectSnoc(ingressPorts[..i], p, PROTOCOL_UDP);
      if p.protocol == PROTOCOL_TCP {
        result := result.(tcp := result.tcp + [ConfigOf(p)]);
      } else if p.protocol == PROTOCOL_UDP {
        result := result.(udp := result.udp + [ConfigOf(p)]);
      }
    }
    assert ingressPorts[..|ingressPorts|] == ingressPorts;
  }

  /** The configuration of a protocol is exactly the ports of that protocol. */
  lemma {:induction false} SelectMembers(ports: seq<IngressPort>, protocol: string)
    ensures forall i ::
            0 <= i < |ports| && ports[i].protocol == protocol
            ==> ConfigOf(ports[i]) in Select(ports, protocol)
    ensures forall c :: c in Select(ports, protocol)
                        ==> exists i :: 0 <= i < |ports| && ports[i].protocol == protocol && ConfigOf(ports[i]) == c
  {
    if ports != [] {
      var init, last := ports[..|ports| - 1], ports[|ports| - 1];
      SelectMembers(init, protocol);
      forall c | c in Select(ports, protocol)
        ensures exists i :: 0 <= i < |ports| && ports[i].protocol == protocol && ConfigOf(ports[i]) == c
      {
        if c in Select(init, protocol) {
          var i :| 0 <= i < |init| && init[i].protocol == protocol && ConfigOf(init[i]) == c;
          assert ports[i] == init[i];
        } else {
          assert ConfigOf(last) == c;
        }
      }
    }
  }

  // ---------------------------------------------------------------------------
  // ValidateNoDuplicatePorts and ValidateNoDuplicatePortsInPortConfig
  // ---------------------------------------------------------------------------

  predicate ClashesWithNone(port: string, cs: seq<PortConfig>)
  {
    forall j :: 0 <= j < |cs| ==> !Clash(cs[j].port, port)
  }

  /** The conversion keeps each protocol's ports in order, port and description, and drops
      only other protocols: at gives the positions of the selected ports. */
  ghost predicate SelectedAt(ports: seq<IngressPort>, protocol: string, cs: seq<PortConfig>, at: seq<nat>)
  {
    && |at| == |cs| && (forall i, j :: 0 <= i < j < |at| ==> at[i] < at[j])
    && (forall i :: 0 <= i < |at| ==> at[i] < |ports| && ports[at[i]].protocol == protocol
                                      && cs[i] == PortConfig(ports[at[i]].port, ports[at[i]].description))
    && (forall k :: 0 <= k < |ports| && ports[k].protocol == protocol ==> k in at)
  }

  lemma {:induction false} SelectAt(ports: seq<IngressPort>, protocol: string) returns (at: seq<nat>)
    ensures SelectedAt(ports, protocol, Select(ports, protocol), at)
  {
    at := [];
    if ports != [] {
      var n := |ports| - 1;
      at := SelectAt(ports[..n], protocol);
      if ports[n].protocol == protocol {
        ghost var old_at := at;
        at := at + [n];
        assert forall k :: k in old_at ==> k in at;
        assert at[|old_at|] == n;
      }
    }
  }

  lemma {:induction false} ConvertedExactly(ports: seq<IngressPort>) returns (tcpAt: seq<nat>, udpAt: seq<nat>)
    ensures SelectedAt(ports, "TCP", Converted(ports).tcp, tcpAt)
    ensures SelectedAt(ports, "UDP", Converted(ports).udp, udpAt)
  {
    tcpAt := SelectAt(ports, "TCP");
    udpAt := SelectAt(ports, "UDP");
  }

  lemma {:induction false} NoDuplicatesSnoc(ports: seq<IngressPort>, p: IngressPort)
    ensures NoDuplicates(ports + [p]) <==>
            && NoDuplicates(ports) && Parses(p.port)
            && (KnownProtocol(p.protocol) ==> ClashesWithNone(p.port, Select(ports, p.protocol)))
  {
    var all := ports + [p];
    assert forall i :: 0 <= i < |ports| ==> all[i] == ports[i];
    assert all[|ports|] == p;
    SelectMembers(ports, p.protocol);
    var cs := Select(ports, p.protocol);
    if NoDuplicates(all) && KnownProtocol(p.protocol) {
      forall j | 0 <= j < |cs| ensures !Clash(cs[j].port, p.port) {
        assert cs[j] in cs;
        var i :| 0 <= i < |ports| && ports[i].protocol == p.protocol && ConfigOf(ports[i]) == cs[j];
        assert !Clash(all[i].port, all[|ports|].port);
      }
    }
    if NoDuplicates(ports) && Parses(p.port) && (KnownProtocol(p.protocol) ==> ClashesWithNone(p.port, cs)) {
      forall i, j | 0 <= i < j < |all| && all[i].protocol == all[j].protocol && KnownProtocol(all[i].protocol)
        ensures !Clash(all[i].port, all[j].port)
      {
        if j == |ports| {
          assert ConfigOf(ports[i]) in cs;
          var k :| 0 <= k < |cs| && cs[k] == ConfigOf(ports[i]);
        }
      }
    }
  }

  lemma {:induction false} DisjointWithinSnoc(cs: seq<PortConfig>, c: PortConfig)
    ensures DisjointWithin(cs + [c]) <==> DisjointWithin(cs) && ClashesWithNone(c.port, cs)
  {
    var all := cs + [c];
    assert forall i :: 0 <= i < |cs| ==> all[i] == cs[i];
    if DisjointWithin(all) {
      forall j | 0 <= j < |cs| ensures !Clash(cs[j].port, c.port) {
        assert !Clash(all[j].port, all[|cs|].port);
      }
    }
  }

  lemma {:induction false} SelectStep(ports: seq<IngressPort>, p: IngressPort, protocol: string)
    ensures DisjointWithin(Select(ports + [p], protocol)) <==>
            DisjointWithin(Select(ports, protocol))
                && (p.protocol == protocol ==> ClashesWithNone(p.port, Select(ports, protocol)))
  {
    SelectSnoc(ports, p, protocol);
    DisjointWithinSnoc(Select(ports, protocol), ConfigOf(p));
    assert Select(ports, protocol) + [] == Select(ports, protocol);
  }

  /** Disjointness of a service is disjointness of each half of its conversion. */
  lemma {:induction false} NoDuplicatesBySelect(ports: seq<IngressPort>)
    ensures NoDuplicates(ports) <==>
            && AllIngressParse(ports)
            && DisjointWithin(Select(ports, PROTOCOL_TCP)) && DisjointWithin(Select(ports, PROTOCOL_UDP))
  {
    if ports != [] {
      var init, last := ports[..|ports| - 1], ports[|ports| - 1];
      assert ports == init + [last];
      NoDuplicatesBySelect(init);
      NoDuplicatesSnoc(init, last);
      SelectStep(init, last, PROTOCOL_TCP);
      SelectStep(init, last, PROTOCOL_UDP);
      assert AllIngressParse(ports) <==> AllIngressParse(init) && Parses(last.port);
      assert KnownProtocol(last.protocol) <==> last.protocol == PROTOCOL_TCP || last.protocol == PROTOCOL_UDP;
    }
  }

  lemma {:induction false} SelectRanges(ports: seq<IngressPort>, protocol: string)
    requires AllIngressParse(ports)
    ensures AllParse(Select(ports, protocol))
    ensures ConfigRanges(Select(ports, protocol)) == IngressRanges(ports, protocol)
  {
    if ports != [] {
      SelectRanges(ports[..|ports| - 1], protocol);
    }
  }

  lemma {:induction false} ClashesByRanges(ports: seq<IngressPort>, port: string, protocol: string)
    requires AllIngressParse(ports) && Parses(port)
    ensures ClashesWithNone(port, Select(ports, protocol)) <==>
            forall j :: 0 <= j < |IngressRanges(ports, protocol)|
                        ==> !DoPortRangesOverlap(RangeOf(port), IngressRanges(ports, protocol)[j])
  {
    SelectRanges(ports, protocol);
    var cs, rs := Select(ports, protocol), IngressRanges(ports, protocol);
    assert forall j :: 0 <= j < |cs| ==> rs[j] == RangeOf(cs[j].port);
  }

  lemma {:induction false} IngressRangesSnoc(ports: seq<IngressPort>, p: IngressPort, protocol: string)
    requires AllIngressParse(ports) && Parses(p.port)
    ensures AllIngressParse(ports + [p])
    ensures IngressRanges(ports + [p], protocol)
         == IngressRanges(ports, protocol) + (if p.protocol == protocol then [RangeOf(p.port)] else [])
  {
    assert (ports + [p])[..|ports|] == ports;
  }

  /** The ranges recorded so far under a port's protocol, none for an unknown one. */
  function RecordedRanges(ports: seq<IngressPort>, protocol: string): seq<PortRange>
    requires AllIngressParse(ports)
  {
    if KnownProtocol(protocol) then IngressRanges(ports, protocol) else []
  }

  /** One round of the scan decides whether the prefix stays free of duplicates. */
  lemma {:induction false} NoDuplicatesRound(seen: seq<IngressPort>, p: IngressPort)
    requires NoDuplicates(seen) && Parses(p.port)
    ensures NoDuplicates(seen + [p]) <==>
            forall j :: 0 <= j < |RecordedRanges(seen, p.protocol)|
                        ==> !DoPortRangesOverlap(RangeOf(p.port), RecordedRanges(seen, p.protocol)[j])
  {
    NoDuplicatesSnoc(seen, p);
    if KnownProtocol(p.protocol) {
      ClashesByRanges(seen, p.port, p.protocol);
      assert RecordedRanges(seen, p.protocol) == IngressRanges(seen, p.protocol);
      assert NoDuplicates(seen + [p]) <==> ClashesWithNone(p.port, Select(seen, p.protocol));
    } else {
      assert NoDuplicates(seen + [p]);
    }
  }

  lemma {:induction false} NoDuplicatesPrefix(ports: seq<IngressPort>, i: nat)
    requires i < |ports| && NoDuplicates(ports)
    ensures NoDuplicates(ports[..i] + [ports[i]]) && Parses(ports[i].port)
  {
    assert ports[..i + 1] == ports[..i] + [ports[i]];
  }

  /** The state of the scan after some ports. */
  ghost predicate Scanned(seen: seq<IngressPort>, tcp: seq<PortRange>, udp: seq<PortRange>)
  {
    NoDuplicates(seen) && tcp == IngressRanges(seen, PROTOCOL_TCP) && udp == IngressRanges(seen, PROTOCOL_UDP)
  }

  lemma {:induction false} ScannedSnoc(seen: seq<IngressPort>, tcp: seq<PortRange>, udp: seq<PortRange>, p: IngressPort)
    requires Scanned(seen, tcp, udp) && NoDuplicates(seen + [p])
    ensures Parses(p.port)
    ensures Scanned(seen + [p], if p.protocol == PROTOCOL_TCP then tcp + [RangeOf(p.port)] else tcp,
                    if p.protocol == PROTOCOL_UDP then udp + [RangeOf(p.port)] else udp)
  {
    assert (seen + [p])[|seen|] == p;
    IngressRangesSnoc(seen, p, PROTOCOL_TCP);
    IngressRangesSnoc(seen, p, PROTOCOL_UDP);
  }

  method ValidateNoDuplicatePorts(ingressPorts: seq<IngressPort>) returns (ok: bool)
    ensures ok <==> NoDuplicates(ingressPorts)
  {
    var tcpRanges: seq<PortRange>, udpRanges: seq<PortRange> := [], [];
    for i := 0 to |ingressPorts|
      invariant Scanned(ingressPorts[..i], tcpRanges, udpRanges)
    {
      var p := ingressPorts[i];
      ghost var seen := ingressPorts[..i];
      if NoDuplicates(ingressPorts) { NoDuplicatesPrefix(ingressPorts, i); }
      var parsed := ParsePortRange(p.port);
      if parsed.Failure? { return false; }
      NoDuplicatesRound(seen, p);
      var existingRanges :=
        if p.protocol == PROTOCOL_TCP then tcpRanges else if p.protocol == PROTOCOL_UDP then udpRanges else [];
      assert existingRanges == RecordedRanges(seen, p.protocol);
      var clear := OverlapsNone(parsed.value, existingRanges);
      if !clear { return false; }
      ScannedSnoc(seen, tcpRanges, udpRanges, p);
      assert ingressPorts[..i + 1] == seen + [p];
      if p.protocol == PROTOCOL_TCP {
        tcpRanges := tcpRanges + [parsed.value];
      } else if p.protocol == PROTOCOL_UDP {
        udpRanges := udpRanges + [parsed.value];
      }
    }
    assert ingressPorts[..|ingressPorts|] == ingressPorts;
    return true;
  }

  method ValidateNoDuplicatePortsInPortConfig(ports: seq<PortConfig>) returns (ok: bool)
    ensures ok <==> AllParse(ports) && DisjointWithin(ports)
  {
    var ranges: seq<PortRange> := [];
    for i := 0 to |ports|
      invariant AllParse(ports[..i]) && DisjointWithin(ports[..i])
      invariant ranges == ConfigRanges(ports[..i])
    {
      assert ports[..i + 1] == ports[..i] + [ports[i]];
      DisjointWithinSnoc(ports[..i], ports[i]);
      assert DisjointWithin(ports) ==> DisjointWithin(ports[..i + 1]);
      var parsed := ParsePortRange(ports[i].port);
      if parsed.Failure? { return false; }
      var clear := OverlapsNone(parsed.value, ranges);
      if !clear { return false; }
      ranges := ranges + [parsed.value];
    }
    assert ports[..|ports|] == ports;
    return true;
  }

  // ---------------------------------------------------------------------------
  // checkInternalPortOverlaps
  // ---------------------------------------------------------------------------

  function PortsFor(item: ServicePortsRef, protocol: string): seq<PortConfig>
  {
    if protocol == PROTOCOL_TCP then item.ports.tcp else item.ports.udp
  }

  predicate EntriesParse(items: seq<ServicePortsRef>)
  {
    forall k :: 0 <= k < |items| ==> AllParse(items[k].ports.tcp) && AllParse(items[k].ports.udp)
  }

  /** The ranges recorded under a service name after some entries. */
  function NamedRanges(items: seq<ServicePortsRef>, protocol: string, name: string): seq<PortRange>
    requires EntriesParse(items)
  {
    if items == [] then []
    else
      var last := items[|items| - 1];
      NamedRanges(items[..|items| - 1], protocol, name)
      + (if last.ref.name == name then ConfigRanges(PortsFor(last, protocol)) else [])
  }

  ghost predicate Recorded(m: map<string, seq<PortRange>>, items: seq<ServicePortsRef>, protocol: string)
  {
    EntriesParse(items) && forall name :: Lookup(m, name) == NamedRanges(items, protocol, name)
  }

  predicate ClearOfOthers(cs: seq<PortConfig>, m: map<string, seq<PortRange>>, name: string)
    requires AllParse(cs)
  {
    forall other :: other in m && other != name ==> NoneOverlaps(cs, m[other])
  }

  predicate RangeClearOfOthers(r: PortRange, m: map<string, seq<PortRange>>, name: string)
  {
    forall other :: other in m && other != name
      ==> forall j :: 0 <= j < |m[other]| ==> !DoPortRangesOverlap(r, m[other][j])
  }

  /** Compare one range with the ranges recorded under every other name, in the arbitrary
      order of Go's map iteration. */
  method ScanOthers(r: PortRange, ranges: map<string, seq<PortRange>>, name: string) returns (ok: bool)
    ensures ok <==> RangeClearOfOthers(r, ranges, name)
  {
    var others := ranges.Keys;
    while others != {}
      invariant others <= ranges.Keys
      invariant forall n :: n in ranges && n !in others && n != name
                            ==> forall j :: 0 <= j < |ranges[n]| ==> !DoPortRangesOverlap(r, ranges[n][j])
      decreases others
    {
      var other :| other in others;
      others := others - {other};
      if other == name { continue; }
      var clear := OverlapsNone(r, ranges[other]);
      if !clear { return false; }
    }
    return true;
  }

  ghost predicate SameOthers(m: map<string, seq<PortRange>>, m': map<string, seq<PortRange>>, name: string)
  {
    forall n :: n != name ==> Lookup(m, n) == Lookup(m', n)
  }

  lemma {:induction false} ClearOfOthersSnoc(cs: seq<PortConfig>, c: PortConfig, m: map<string, seq<PortRange>>,
                                             m': map<string, seq<PortRange>>, name: string)
    requires AllParse(cs) && Parses(c.port) && SameOthers(m, m', name)
    ensures AllParse(cs + [c])
    ensures ClearOfOthers(cs + [c], m, name)
            <==> ClearOfOthers(cs, m, name) && RangeClearOfOthers(RangeOf(c.port), m', name)
  {
    var all := cs + [c];
    assert all[|cs|] == c && forall i :: 0 <= i < |cs| ==> all[i] == cs[i];
    if ClearOfOthers(all, m, name) {
      forall other | other in m' && other != name
        ensures forall j :: 0 <= j < |m'[other]| ==> !DoPortRangesOverlap(RangeOf(c.port), m'[other][j])
      {
        assert Lookup(m, other) == Lookup(m', other);
        if m'[other] != [] { assert NoneOverlaps(all, m[other]); }
      }
    }
    if ClearOfOthers(cs, m, name) && RangeClearOfOthers(RangeOf(c.port), m', name) {
      forall other | other in m && other != name ensures NoneOverlaps(all, m[other]) {
        assert Lookup(m, other) == Lookup(m', other);
        assert NoneOverlaps(cs, m[other]);
      }
    }
  }

  lemma {:induction false} ClearOfOthersPrefix(cs: seq<PortConfig>, i: nat, m: map<string, seq<PortRange>>,
                                               name: string)
    requires i <= |cs| && AllParse(cs) && ClearOfOthers(cs, m, name)
    ensures ClearOfOthers(cs[..i], m, name)
  {
    forall other | other in m && other != name ensures NoneOverlaps(cs[..i], m[other]) {
      assert NoneOverlaps(cs, m[other]);
    }
  }

  /** The map with the ranges of a list recorded under a name. */
  ghost predicate Extended(m: map<string, seq<PortRange>>, m': map<string, seq<PortRange>>, name: string,
                           cs: seq<PortConfig>)
  {
    AllParse(cs) && SameOthers(m, m', name) && Lookup(m', name) == Lookup(m, name) + ConfigRanges(cs)
  }

  lemma {:induction false} ExtendedSnoc(m: map<string, seq<PortRange>>, m': map<string, seq<PortRange>>, name: string,
                                       cs: seq<PortConfig>, c: PortConfig)
    requires Extended(m, m', name, cs) && Parses(c.port)
    ensures Extended(m, m'[name := Lookup(m', name) + [RangeOf(c.port)]], name, cs + [c])
  {
    assert ConfigRanges(cs + [c]) == ConfigRanges(cs) + [RangeOf(c.port)];
  }

  /** One protocol of one entry: compare each port with the ranges of the other names, then
      record it under this name. */
  method RecordEntry(name: string, cs: seq<PortConfig>, ranges: map<string, seq<PortRange>>)
    returns (ok: bool, ranges': map<string, seq<PortRange>>)
    ensures ok <==> AllParse(cs) && ClearOfOthers(cs, ranges, name)
    ensures ok ==> Extended(ranges, ranges', name, cs)
  {
    ranges' := ranges;
    for i := 0 to |cs|
      invariant AllParse(cs[..i]) && ClearOfOthers(cs[..i], ranges, name)
      invariant Extended(ranges, ranges', name, cs[..i])
    {
      ghost var before := cs[..i];
      assert cs[..i + 1] == before + [cs[i]];
      var parsed := ParsePortRange(cs[i].port);
      if parsed.Failure? { return false, ranges; }
      ClearOfOthersSnoc(before, cs[i], ranges, ranges', name);
      if AllParse(cs) && ClearOfOthers(cs, ranges, name) { ClearOfOthersPrefix(cs, i + 1, ranges, name); }
      var clear := ScanOthers(parsed.value, ranges', name);
      if !clear { return false, ranges; }
      ExtendedSnoc(ranges, ranges', name, before, cs[i]);
      ranges' := ranges'[name := Lookup(ranges', name) + [parsed.value]];
    }
    assert cs[..|cs|] == cs;
    return true, ranges';
  }

  /** Some port of some entry of the name has the range. */
  ghost predicate FromEntry(items: seq<ServicePortsRef>, protocol: string, name: string, r: PortRange)
    requires EntriesParse(items)
  {
    exists k :: 0 <= k < |items| && items[k].ref.name == name && r in ConfigRanges(PortsFor(items[k], protocol))
  }

  lemma {:induction false} FromEntrySnoc(items: seq<ServicePortsRef>, item: ServicePortsRef, protocol: string,
                                         name: string, r: PortRange)
    requires EntriesParse(items) && EntriesParse(items + [item]) && AllParse(item.ports.tcp) && AllParse(item.ports.udp)
    ensures FromEntry(items + [item], protocol, name, r) <==>
            FromEntry(items, protocol, name, r)
                || (item.ref.name == name && r in ConfigRanges(PortsFor(item, protocol)))
  {
    var all := items + [item];
    assert all[|items|] == item;
    if FromEntry(items, protocol, name, r) {
      var k :| 0 <= k < |items| && items[k].ref.name == name && r in ConfigRanges(PortsFor(items[k], protocol));
      assert all[k] == items[k];
    }
  }

  lemma {:induction false} NamedRangesMembers(items: seq<ServicePortsRef>, protocol: string, name: string)
    requires EntriesParse(items)
    ensures forall r :: r in NamedRanges(items, protocol, name) <==> FromEntry(items, protocol, name, r)
  {
    if items != [] {
      var init, last := items[..|items| - 1], items[|items| - 1];
      assert items == init + [last];
      NamedRangesMembers(init, protocol, name);
      forall r { FromEntrySnoc(init, last, protocol, name, r); }
    }
  }

  predicate BetweenOthers(items: seq<ServicePortsRef>, item: ServicePortsRef, protocol: string)
  {
    forall k :: 0 <= k < |items| && items[k].ref.name != item.ref.name
                ==> DisjointBetween(PortsFor(items[k], protocol), PortsFor(item, protocol))
  }

  lemma {:induction false} ClearOfOthersIsBetween(items: seq<ServicePortsRef>, item: ServicePortsRef, protocol: string,
                               m: map<string, seq<PortRange>>)
    requires Recorded(m, items, protocol) && AllParse(PortsFor(item, protocol))
    ensures ClearOfOthers(PortsFor(item, protocol), m, item.ref.name) <==> BetweenOthers(items, item, protocol)
  {
    var cs := PortsFor(item, protocol);
    if ClearOfOthers(cs, m, item.ref.name) {
      forall k, i, j | 0 <= k < |items| && items[k].ref.name != item.ref.name
                       && 0 <= i < |PortsFor(items[k], protocol)| && 0 <= j < |cs|
        ensures !Clash(PortsFor(items[k], protocol)[i].port, cs[j].port)
      {
        var name := items[k].ref.name;
        NamedRangesMembers(items, protocol, name);
        var r := RangeOf(PortsFor(items[k], protocol)[i].port);
        assert ConfigRanges(PortsFor(items[k], protocol))[i] == r;
        assert FromEntry(items, protocol, name, r);
        assert Lookup(m, name) == NamedRanges(items, protocol, name);
        var l :| 0 <= l < |Lookup(m, name)| && Lookup(m, name)[l] == r;
        assert NoneOverlaps(cs, m[name]);
      }
    }
    if BetweenOthers(items, item, protocol) {
      forall other, i, j | other in m && other != item.ref.name && 0 <= i < |cs| && 0 <= j < |m[other]|
        ensures !DoPortRangesOverlap(RangeOf(cs[i].port), m[other][j])
      {
        NamedRangesMembers(items, protocol, other);
        assert Lookup(m, other) == NamedRanges(items, protocol, other);
        assert m[other][j] in Lookup(m, other);
        assert FromEntry(items, protocol, other, m[other][j]);
        var k :| 0 <= k < |items| && items[k].ref.name == other
            && m[other][j] in ConfigRanges(PortsFor(items[k], protocol));
        var l :| 0 <= l < |PortsFor(items[k], protocol)|
            && ConfigRanges(PortsFor(items[k], protocol))[l] == m[other][j];
        assert !Clash(PortsFor(items[k], protocol)[l].port, cs[i].port);
      }
    }
  }

  lemma {:induction false} InternalOKSnoc(items: seq<ServicePortsRef>, item: ServicePortsRef)
    ensures InternalOK(items + [item]) <==>
            && InternalOK(items) && EntryOK(item)
            && BetweenOthers(items, item, PROTOCOL_TCP) && BetweenOthers(items, item, PROTOCOL_UDP)
  {
    var all := items + [item];
    assert forall k :: 0 <= k < |items| ==> all[k] == items[k];
    assert all[|items|] == item;
    if InternalOK(all) {
      forall k | 0 <= k < |items| && items[k].ref.name != item.ref.name
        ensures EntriesDisjoint(items[k], item)
      {
        assert EntriesDisjoint(all[k], all[|items|]);
      }
    }
  }

  lemma {:induction false} InternalOKPrefix(items: seq<ServicePortsRef>, k: nat)
    requires k <= |items| && InternalOK(items)
    ensures InternalOK(items[..k])
  {
  }

  lemma {:induction false} NamedRangesSnoc(items: seq<ServicePortsRef>, item: ServicePortsRef, protocol: string,
                                           name: string)
    requires EntriesParse(items) && AllParse(item.ports.tcp) && AllParse(item.ports.udp)
    ensures NamedRanges(items + [item], protocol, name)
            == NamedRanges(items, protocol, name)
               + (if item.ref.name == name then ConfigRanges(PortsFor(item, protocol)) else [])
  {
    assert (items + [item])[..|items|] == items;
  }

  lemma {:induction false} RecordedSnoc(m: map<string, seq<PortRange>>, m': map<string, seq<PortRange>>,
                                        items: seq<ServicePortsRef>, item: ServicePortsRef, protocol: string)
    requires Recorded(m, items, protocol) && AllParse(item.ports.tcp) && AllParse(item.ports.udp)
    requires Extended(m, m', item.ref.name, PortsFor(item, protocol))
    ensures Recorded(m', items + [item], protocol)
  {
    forall name ensures Lookup(m', name) == NamedRanges(items + [item], protocol, name) {
      NamedRangesSnoc(items, item, protocol, name);
      assert Lookup(m, name) == NamedRanges(items, protocol, name);
      assert name != item.ref.name ==> Lookup(m', name) == Lookup(m, name);
    }
  }

  /** The webhook's check of a whole mapping decides InternalOK, for every order in which
      Go may iterate its maps. */
  method CheckInternalPortOverlaps(items: seq<ServicePortsRef>) returns (ok: bool)
    ensures ok <==> InternalOK(items)
  {
    var tcpRanges: map<string, seq<PortRange>>, udpRanges: map<string, seq<PortRange>> := map[], map[];
    for k := 0 to |items|
      invariant InternalOK(items[..k])
      invariant Recorded(tcpRanges, items[..k], PROTOCOL_TCP)
      invariant Recorded(udpRanges, items[..k], PROTOCOL_UDP)
    {
      var seen, item := items[..k], items[k];
      assert items[..k + 1] == seen + [item];
      InternalOKSnoc(seen, item);
      if InternalOK(items) { InternalOKPrefix(items, k + 1); }
      var tcpOk := ValidateNoDuplicatePortsInPortConfig(item.ports.tcp);
      if !tcpOk { return false; }
      var udpOk := ValidateNoDuplicatePortsInPortConfig(item.ports.udp);
      if !udpOk { return false; }
      ClearOfOthersIsBetween(seen, item, PROTOCOL_TCP, tcpRanges);
      ClearOfOthersIsBetween(seen, item, PROTOCOL_UDP, udpRanges);
      var tcpClear, tcpRanges' := RecordEntry(item.ref.name, item.ports.tcp, tcpRanges);
      if !tcpClear { return false; }
      var udpClear, udpRanges' := RecordEntry(item.ref.name, item.ports.udp, udpRanges);
      if !udpClear { return false; }
      RecordedSnoc(tcpRanges, tcpRanges', seen, item, PROTOCOL_TCP);
      RecordedSnoc(udpRanges, udpRanges', seen, item, PROTOCOL_UDP);
      tcpRanges, udpRanges := tcpRanges', udpRanges';
    }
    assert items[..|items|] == items;
    return true;
  }
}

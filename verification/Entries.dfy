/** The entries of a port mapping as the controllers edit them: find the first entry of a
    service, put its ports there, or take it out. */
module Entries {
  import opened Model
  import opened PortChecks
  import opened MappingChecks

  /** Index of the first entry for a service, or the length of the list. */
  function FindEntry(items: seq<ServicePortsRef>, service: Key): (i: nat)
    ensures i <= |items|
    ensures forall k :: 0 <= k < i ==> !items[k].IsFor(service)
    ensures i < |items| ==> items[i].IsFor(service)
  {
    if items == [] || items[0].IsFor(service) then 0 else 1 + FindEntry(items[1..], service)
  }

  predicate HasEntry(items: seq<ServicePortsRef>, service: Key)
  {
    exists k :: 0 <= k < |items| && items[k].IsFor(service)
  }

  predicate UniqueKeys(items: seq<ServicePortsRef>)
  {
    forall k, l :: 0 <= k < l < |items| ==> !items[k].ref.SameAs(items[l].ref)
  }

  function EntryFor(service: Service): (e: ServicePortsRef)
    ensures e.IsFor(service.key)
  {
    ServicePortsRef(ObjectRef(NETGUARD_API, "Service", service.key.name, service.key.namespace),
                    Converted(service.ingressPorts))
  }

  /** The ports of the first entry replaced, or a new entry at the end. */
  function Upsert(items: seq<ServicePortsRef>, service: Service): seq<ServicePortsRef>
  {
    var i := FindEntry(items, service.key);
    if i < |items| then items[i := items[i].(ports := Converted(service.ingressPorts))]
    else items + [EntryFor(service)]
  }

  /** The first entry of a service taken out; the others keep their order. */
  function Remove(items: seq<ServicePortsRef>, service: Key): seq<ServicePortsRef>
  {
    var i := FindEntry(items, service);
    if i < |items| then items[..i] + items[i + 1..] else items
  }

  // ---------------------------------------------------------------------------
  // What the two edits keep
  // ---------------------------------------------------------------------------

  lemma {:induction false} UpsertKeepsUnique(items: seq<ServicePortsRef>, service: Service)
    requires UniqueKeys(items)
    ensures UniqueKeys(Upsert(items, service))
  {
  }

  lemma {:induction false} RemoveKeepsUnique(items: seq<ServicePortsRef>, service: Key)
    requires UniqueKeys(items)
    ensures UniqueKeys(Remove(items, service))
    ensures !HasEntry(Remove(items, service), service)
  {
  }

  /** Upsert is idempotent, and leaves exactly the converted ports under the service. */
  lemma {:induction false} UpsertExact(items: seq<ServicePortsRef>, service: Service)
    ensures var items' := Upsert(items, service); var i := FindEntry(items, service.key);
            && FindEntry(items', service.key) == i < |items'|
            && items'[i].ports == Converted(service.ingressPorts)
            && items'[..i] == items[..i]
            && (i < |items| ==> items'[i + 1..] == items[i + 1..] && |items'| == |items|)
            && (i == |items| ==> |items'| == |items| + 1)
            && Upsert(items', service) == items'
  {
    var items' := Upsert(items, service);
    var i := FindEntry(items, service.key);
    var j := FindEntry(items', service.key);
    assert items'[i].IsFor(service.key);
    assert forall k :: 0 <= k < i ==> items'[k] == items[k];
    assert j == i;
  }

  /** The index of the first entry whose reference has the service's name and namespace. */
  ghost predicate FirstEntry(items: seq<ServicePortsRef>, service: Key, i: nat)
  {
    && i < |items| && items[i].ref.name == service.name && items[i].ref.namespace == service.namespace
    && forall j :: 0 <= j < i ==> !(items[j].ref.name == service.name && items[j].ref.namespace == service.namespace)
  }

  ghost predicate NoEntry(items: seq<ServicePortsRef>, service: Key)
  {
    forall j :: 0 <= j < |items| ==> !(items[j].ref.name == service.name && items[j].ref.namespace == service.namespace)
  }

  lemma {:induction false} FindEntryMeans(items: seq<ServicePortsRef>, service: Key)
    ensures FindEntry(items, service) < |items| ==> FirstEntry(items, service, FindEntry(items, service))
    ensures FindEntry(items, service) == |items| ==> NoEntry(items, service)
    ensures forall i: nat :: FirstEntry(items, service, i) ==> FindEntry(items, service) == i
    ensures NoEntry(items, service) ==> FindEntry(items, service) == |items|
  {
    var f := FindEntry(items, service);
    assert forall j :: 0 <= j < f ==> !items[j].IsFor(service);
    forall i: nat | FirstEntry(items, service, i) ensures f == i {
      assert items[i].IsFor(service);
    }
  }

  /** An upsert gives the first entry of the service the converted ports and keeps its
      reference, or appends a new entry under the service's name and namespace. */
  lemma {:induction false} UpsertEntryWise(items: seq<ServicePortsRef>, service: Service)
    ensures forall i: nat :: FirstEntry(items, service.key, i) ==>
              Upsert(items, service) == items[i := ServicePortsRef(items[i].ref, Converted(service.ingressPorts))]
    ensures NoEntry(items, service.key) ==>
              Upsert(items, service) == items + [ServicePortsRef(
                ObjectRef("netguard.sgroups.io/v1alpha1", "Service", service.key.name, service.key.namespace),
                Converted(service.ingressPorts))]
  {
    FindEntryMeans(items, service.key);
  }

  /** A removal takes the first entry of the service out and keeps the rest in order. */
  lemma {:induction false} RemoveEntryWise(items: seq<ServicePortsRef>, service: Key)
    ensures forall i: nat :: FirstEntry(items, service, i) ==> Remove(items, service) == items[..i] + items[i + 1..]
    ensures NoEntry(items, service) ==> Remove(items, service) == items
  {
    FindEntryMeans(items, service);
  }

  /** Binding a service that had no entry and unbinding it gives the list back; if it had
      one, unbinding loses that entry. */
  lemma {:induction false} UpsertThenRemove(items: seq<ServicePortsRef>, service: Service)
    ensures Remove(Upsert(items, service), service.key) == items <==> !HasEntry(items, service.key)
  {
    UpsertExact(items, service);
    var items' := Upsert(items, service);
    var i := FindEntry(items, service.key);
    if i == |items| {
      assert items'[..i] + items'[i + 1..] == items;
    }
  }

  lemma {:induction false} RemoveKeepsInternalOK(items: seq<ServicePortsRef>, service: Key)
    requires InternalOK(items)
    ensures InternalOK(Remove(items, service))
  {
    var i := FindEntry(items, service);
    var items' := Remove(items, service);
    if i < |items| {
      forall k, l | 0 <= k < l < |items'| && items'[k].ref.name != items'[l].ref.name
        ensures EntriesDisjoint(items'[k], items'[l])
      {
        var k0 := if k < i then k else k + 1;
        var l0 := if l < i then l else l + 1;
        assert items'[k] == items[k0] && items'[l] == items[l0];
      }
    }
  }

  // ---------------------------------------------------------------------------
  // Admission composes with reconciliation
  // ---------------------------------------------------------------------------

  lemma {:induction false} ClearOfIsBetween(ports: seq<IngressPort>, protocol: string, cs: seq<PortConfig>)
    ensures ClearOf(ports, protocol, cs) <==> DisjointBetween(cs, Select(ports, protocol))
    ensures ClearOf(ports, protocol, cs) <==> DisjointBetween(Select(ports, protocol), cs)
  {
    var mine := Select(ports, protocol);
    SelectMembers(ports, protocol);
    if ClearOf(ports, protocol, cs) {
      forall i, j | 0 <= i < |cs| && 0 <= j < |mine| ensures !Clash(cs[i].port, mine[j].port) {
        assert mine[j] in mine;
        var k :| 0 <= k < |ports| && ports[k].protocol == protocol && ConfigOf(ports[k]) == mine[j];
        assert !Clash(cs[i].port, ports[k].port);
      }
    }
    if DisjointBetween(cs, mine) {
      forall k, i | 0 <= k < |ports| && 0 <= i < |cs| && ports[k].protocol == protocol
        ensures !Clash(cs[i].port, ports[k].port)
      {
        assert ConfigOf(ports[k]) in mine;
        var j :| 0 <= j < |mine| && mine[j] == ConfigOf(ports[k]);
      }
    }
  }

  predicate KnownProtocols(ports: seq<IngressPort>)
  {
    forall i :: 0 <= i < |ports| ==> KnownProtocol(ports[i].protocol)
  }

  lemma {:induction false} EntryOKIsNoDuplicates(service: Service)
    ensures NoDuplicates(service.ingressPorts) ==> EntryOK(EntryFor(service))
    ensures KnownProtocols(service.ingressPorts)
            ==> (NoDuplicates(service.ingressPorts) <==> EntryOK(EntryFor(service)))
  {
    var ports := service.ingressPorts;
    NoDuplicatesBySelect(ports);
    SelectMembers(ports, PROTOCOL_TCP);
    SelectMembers(ports, PROTOCOL_UDP);
    var tcp, udp := Select(ports, PROTOCOL_TCP), Select(ports, PROTOCOL_UDP);
    if AllIngressParse(ports) {
      SelectRanges(ports, PROTOCOL_TCP);
      SelectRanges(ports, PROTOCOL_UDP);
    }
    if KnownProtocols(ports) && EntryOK(EntryFor(service)) {
      forall i | 0 <= i < |ports| ensures Parses(ports[i].port) {
        assert ConfigOf(ports[i]) in tcp || ConfigOf(ports[i]) in udp;
      }
    }
  }

  /** The entry of a service is disjoint from every entry of another name. */
  predicate DisjointFromOthers(items: seq<ServicePortsRef>, service: Service)
  {
    forall k :: 0 <= k < |items| && items[k].ref.name != service.key.name
                ==> EntriesDisjoint(items[k], EntryFor(service))
  }

  lemma {:induction false} OverlapFreeIsDisjoint(items: seq<ServicePortsRef>, service: Service)
    requires InternalOK(items)
    ensures OverlapFree(service, items) <==> AllIngressParse(service.ingressPorts) && DisjointFromOthers(items, service)
  {
    forall k | 0 <= k < |items| && items[k].ref.name != service.key.name
      ensures EntryClear(service, items[k]) <==> EntriesDisjoint(items[k], EntryFor(service))
    {
      assert EntryOK(items[k]);
      ClearOfIsBetween(service.ingressPorts, PROTOCOL_TCP, items[k].ports.tcp);
      ClearOfIsBetween(service.ingressPorts, PROTOCOL_UDP, items[k].ports.udp);
    }
  }

  lemma {:induction false} UpsertMakesOK(items: seq<ServicePortsRef>, service: Service)
    requires InternalOK(items) && EntryOK(EntryFor(service)) && DisjointFromOthers(items, service)
    ensures InternalOK(Upsert(items, service))
  {
    UpsertExact(items, service);
    var i, items' := FindEntry(items, service.key), Upsert(items, service);
    assert items'[i].ports == EntryFor(service).ports && items'[i].ref.name == service.key.name;
    assert forall k :: 0 <= k < |items| && k != i ==> items'[k] == items[k];
    forall k, l | 0 <= k < l < |items'| && items'[k].ref.name != items'[l].ref.name
      ensures EntriesDisjoint(items'[k], items'[l])
    {
      if k == i {
        assert EntriesDisjoint(items[l], EntryFor(service));
      } else if l == i {
        assert EntriesDisjoint(items[k], EntryFor(service));
      } else {
        assert EntriesDisjoint(items[k], items[l]);
      }
    }
  }

  lemma {:induction false} UpsertNeedsOK(items: seq<ServicePortsRef>, service: Service)
    requires InternalOK(items) && InternalOK(Upsert(items, service))
    ensures EntryOK(EntryFor(service)) && DisjointFromOthers(items, service)
  {
    UpsertExact(items, service);
    var i, items' := FindEntry(items, service.key), Upsert(items, service);
    assert items'[i].ports == EntryFor(service).ports && items'[i].ref.name == service.key.name;
    assert EntryOK(items'[i]);
    forall k | 0 <= k < |items| && items[k].ref.name != service.key.name
      ensures EntriesDisjoint(items[k], EntryFor(service))
    {
      assert k != i ==> items'[k] == items[k];
      assert k < i ==> EntriesDisjoint(items'[k], items'[i]);
      assert k > i ==> EntriesDisjoint(items'[i], items'[k]);
    }
  }

  /** Admission of a service against a mapping is exact: the duplicate check and the
      overlap check accept a service precisely when the mapping webhook will accept the
      controller's upsert of it (the API admits only TCP and UDP as protocols). */
  lemma {:induction false} AdmissionComposes(items: seq<ServicePortsRef>, service: Service)
    requires InternalOK(items)
    ensures NoDuplicates(service.ingressPorts) && OverlapFree(service, items) ==> InternalOK(Upsert(items, service))
    ensures KnownProtocols(service.ingressPorts) && InternalOK(Upsert(items, service))
            ==> NoDuplicates(service.ingressPorts) && OverlapFree(service, items)
  {
    EntryOKIsNoDuplicates(service);
    OverlapFreeIsDisjoint(items, service);
    if EntryOK(EntryFor(service)) && DisjointFromOthers(items, service) { UpsertMakesOK(items, service); }
    if InternalOK(Upsert(items, service)) { UpsertNeedsOK(items, service); }
  }

  /** Taking the service's own entry out first does not change the overlap check. */
  lemma {:induction false} OwnEntryDoesNotMatter(items: seq<ServicePortsRef>, service: Service)
    ensures OverlapFree(service, Remove(items, service.key)) <==> OverlapFree(service, items)
  {
    var i, items' := FindEntry(items, service.key), Remove(items, service.key);
    if i < |items| {
      assert forall k :: 0 <= k < i ==> items'[k] == items[k];
      assert forall k :: i < k < |items| ==> items'[k - 1] == items[k];
      if OverlapFree(service, items') {
        forall k | 0 <= k < |items| && items[k].ref.name != service.key.name ensures EntryClear(service, items[k]) {
          assert items[k] == items'[if k < i then k else k - 1];
        }
      }
    }
  }
}

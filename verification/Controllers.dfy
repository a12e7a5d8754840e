/** The Service and AddressGroupBinding reconcilers and the service webhook as the source
    writes them: loops over the stored objects and writes through the API server, each
    method proved to be the function of the state that the theorems are about. */
module Controllers {
  import opened PortGrammar
  import opened Model
  import opened PortChecks
  import opened MappingChecks
  import opened Entries
  import opened Lifecycle
  import opened Teardown

  /** The search every reconciler repeats over AccessPorts.Items: the first entry of a service. */
  method FindServiceEntry(items: seq<ServicePortsRef>, service: Key) returns (i: nat)
    ensures i == FindEntry(items, service)
  {
    i := 0;
    while i < |items|
      invariant i <= |items|
      invariant FindEntry(items, service) == i + FindEntry(items[i..], service)
    {
      if items[i].ref.name == service.name && items[i].ref.namespace == service.namespace { return; }
      assert items[i..][1..] == items[i + 1..];
      i := i + 1;
    }
  }

  method FindGroupRef(refs: seq<ObjectRef>, r: ObjectRef) returns (i: nat)
    ensures i == FindRef(refs, r)
  {
    i := 0;
    while i < |refs|
      invariant i <= |refs|
      invariant FindRef(refs, r) == i + FindRef(refs[i..], r)
    {
      if refs[i].name == r.name && refs[i].namespace == r.namespace { return; }
      assert refs[i..][1..] == refs[i + 1..];
      i := i + 1;
    }
  }

  /** One bound group: the service's own entry is cut out of a copy of the mapping before the
      overlap check. */
  method CheckGroup(service: Service, key: Key, mappings: Mappings) returns (ok: bool)
    ensures ok <==> FitsMapping(service, key, mappings)
  {
    if key !in mappings { return false; }
    var temp := mappings[key].items;
    var j := FindServiceEntry(temp, service.key);
    if j < |temp| {
      temp := temp[..j] + temp[j + 1..];
    }
    OwnEntryDoesNotMatter(mappings[key].items, service);
    ok := CheckPortOverlaps(service, temp);
  }

  method CheckGroups(service: Service, mappings: Mappings) returns (ok: bool)
    ensures ok <==> FitsGroups(service, service.addressGroups, mappings)
  {
    var groups := service.addressGroups;
    for i := 0 to |groups|
      invariant forall k :: 0 <= k < i ==> FitsMapping(service, groups[k].Resolve(service.key.namespace), mappings)
    {
      var fits := CheckGroup(service, groups[i].Resolve(service.key.namespace), mappings);
      if !fits { return false; }
    }
    return true;
  }

  method CheckPorts(ports: seq<IngressPort>) returns (ok: bool)
    ensures ok <==> AllPortsValid(ports)
  {
    for i := 0 to |ports|
      invariant forall k :: 0 <= k < i ==> ValidatePort(ports[k].port)
    {
      if !ValidatePort(ports[i].port) { return false; }
    }
    return true;
  }

  /** ValidateCreate of the service webhook. */
  method ValidateServiceCreate(service: Service) returns (ok: bool)
    ensures ok <==> ServiceCreateAdmitted(service)
  {
    ok := ValidateNoDuplicatePorts(service.ingressPorts);
    if !ok { return false; }
    ok := CheckPorts(service.ingressPorts);
  }

  /** ValidateUpdate of the service webhook. */
  method ValidateServiceUpdate(before: Service, after: Service, mappings: Mappings) returns (ok: bool)
    ensures ok <==> ServiceUpdateAdmitted(before, after, mappings)
  {
    if after.deleting { return true; }
    var noDuplicates := ValidateNoDuplicatePorts(after.ingressPorts);
    if !noDuplicates { return false; }
    var valid := CheckPorts(after.ingressPorts);
    if !valid { return false; }
    if |after.ingressPorts| > |before.ingressPorts| || before.ingressPorts != after.ingressPorts {
      ok := CheckGroups(after, mappings);
    } else {
      ok := true;
    }
  }

  /** The API server's store with the two webhooks in front of it. */
  class Cluster {
    var services: map<Key, Service>
    var groups: set<Key>
    var mappings: Mappings
    var bindings: map<Key, Binding>

    function View(): State
      reads this
    {
      State(services, groups, mappings, bindings)
    }

    /** A merge patch that replaces the entry list of a mapping. */
    method PatchMapping(key: Key, items: seq<ServicePortsRef>) returns (ok: bool)
      requires key in mappings && items != mappings[key].items
      modifies this`mappings
      ensures Step(mappings, ok) == PatchItems(old(mappings), key, items)
    {
      var updated := mappings[key].(items := items);
      ok := updated.deleting;
      if !ok {
        ok := CheckInternalPortOverlaps(items);
      }
      if ok {
        mappings := mappings[key := updated];
      }
    }

    method UpdateServiceGroups(service: Service, refs: seq<ObjectRef>) returns (ok: bool)
      requires service.key in services && services[service.key] == service && refs != service.addressGroups
      modifies this`services
      ensures Step(View(), ok) == WriteGroups(old(View()), service, refs)
    {
      var updated := service.(addressGroups := refs);
      ok := ValidateServiceUpdate(service, updated, mappings);
      if ok {
        services := services[service.key := updated];
      }
    }

    /** Puts a service's ports into one existing mapping: the entry's ports are overwritten
        if they differ, a new entry is appended if there is none. */
    method UpsertEntry(key: Key, service: Service) returns (ok: bool)
      requires key in mappings
      modifies this`mappings
      ensures Step(mappings, ok) == PatchItems(old(mappings), key, Upsert(old(mappings)[key].items, service))
    {
      var ports := ConvertIngressPortsToProtocolPorts(service.ingressPorts);
      var items := mappings[key].items;
      var i := FindServiceEntry(items, service.key);
      if i < |items| {
        if items[i].ports != ports {
          ok := PatchMapping(key, items[i := items[i].(ports := ports)]);
        } else {
          assert items[i := items[i].(ports := ports)] == items;
          ok := true;
        }
      } else {
        var entry := ServicePortsRef(ObjectRef(NETGUARD_API, "Service", service.key.name, service.key.namespace),
            ports);
        ok := PatchMapping(key, items + [entry]);
      }
    }

    /** Splices the first entry of a service out of one mapping. */
    method RemoveEntry(key: Key, service: Key) returns (ok: bool)
      modifies this`mappings
      ensures Step(View(), ok) == DropService(old(View()), key, service)
    {
      ok := true;
      if key in mappings {
        var items := mappings[key].items;
        var i := FindServiceEntry(items, service);
        if i < |items| {
          assert Remove(items, service) == items[..i] + items[i + 1..];
          ok := PatchMapping(key, items[..i] + items[i + 1..]);
        } else {
          assert Remove(items, service) == items;
        }
      }
    }

    /** ServiceReconciler.reconcileNormal. */
    method ReconcileService(service: Service) returns (ok: bool)
      modifies this`mappings
      ensures Step(mappings, ok) == ServiceReconcile(old(mappings), service)
    {
      ok := true;
      if |service.ingressPorts| > 0 && |service.addressGroups| > 0 {
        var refs := service.addressGroups;
        for i := 0 to |refs|
          invariant ReconcileGroups(old(mappings), service, refs) == ReconcileGroups(mappings, service, refs[i..])
        {
          var key := refs[i].Resolve(service.key.namespace);
          assert refs[i..][1..] == refs[i + 1..];
          if key in mappings {
            ok := UpsertEntry(key, service);
            if !ok { return; }
          }
        }
        ok := true;
      }
    }

    /** ServiceReconciler.reconcileDelete: cascade to the bindings, leave every mapping, go. */
    method ReconcileServiceDelete(service: Service) returns (ok: bool)
      modifies this
      ensures Step(View(), ok) == DeleteService(old(View()), service)
    {
      var todo := bindings.Keys;
      while todo != {}
        invariant services == old(services) && groups == old(groups) && mappings == old(mappings)
        invariant todo <= bindings.Keys && bindings.Keys == old(bindings).Keys
        invariant forall k :: k in todo ==> bindings[k] == old(bindings)[k]
        invariant forall k ::
                  k in bindings && k !in todo
                  ==> bindings[k] == CascadeBindings(old(bindings), service.key)[k]
        decreases todo
      {
        var k :| k in todo;
        todo := todo - {k};
        if k.namespace == service.key.namespace && bindings[k].serviceName == service.key.name {
          bindings := bindings[k := bindings[k].(deleting := true)];
        }
      }
      assert bindings == CascadeBindings(old(bindings), service.key);
      var refs := service.addressGroups;
      ghost var start := View();
      for i := 0 to |refs|
        invariant DropFromGroups(start, service.key, refs) == DropFromGroups(View(), service.key, refs[i..])
      {
        assert refs[i..][1..] == refs[i + 1..];
        ok := RemoveEntry(refs[i].Resolve(service.key.namespace), service.key);
        if !ok { return; }
      }
      services := services - {service.key};
      ok := true;
    }

    /** AddressGroupBindingReconciler.reconcileNormal. */
    method ReconcileBinding(binding: Binding) returns (ok: bool)
      requires WellKeyed(View())
      modifies this
      ensures Step(View(), ok) == Bind(old(View()), binding)
    {
      var svcKey, key := binding.ServiceKey(), binding.MappingKey();
      if svcKey !in services || key !in groups { return true; }
      var service := services[svcKey];
      if key !in mappings {
        mappings := mappings[key := PortMapping([], false)];
      }
      var refs := service.addressGroups;
      var i := FindGroupRef(refs, binding.addressGroup);
      if i == |refs| {
        ok := UpdateServiceGroups(service, refs + [binding.addressGroup]);
        if !ok { return; }
      }
      ok := UpsertEntry(key, service);
    }

    /** AddressGroupBindingReconciler.reconcileDelete. */
    method ReconcileBindingDelete(binding: Binding) returns (ok: bool)
      requires WellKeyed(View())
      modifies this
      ensures Step(View(), ok) == Unbind(old(View()), binding)
    {
      var svcKey := binding.ServiceKey();
      if svcKey in services {
        var service := services[svcKey];
        var refs := service.addressGroups;
        var i := FindGroupRef(refs, binding.addressGroup);
        if i < |refs| {
          ok := UpdateServiceGroups(service, refs[..i] + refs[i + 1..]);
          if !ok { return; }
        }
      }
      ok := RemoveEntry(binding.MappingKey(), svcKey);
      if !ok { return; }
      bindings := bindings - {binding.key};
    }
  }
}
